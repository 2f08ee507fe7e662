/** NUL-terminated strings in byte buffers. */
module CStrings {
  import opened Bits

  const NUL: Byte := 0

  /** The characters before the first NUL. */
  function CString(s: seq<Byte>): (r: seq<Byte>)
    ensures |r| <= |s| && r == s[..|r|] && NUL !in r
    ensures |r| < |s| ==> s[|r|] == NUL
  {
    if s == [] || s[0] == NUL then [] else [s[0]] + CString(s[1..])
  }

  lemma {:induction false} CStringTo(s: seq<Byte>, k: nat)
    requires k < |s| && s[k] == NUL && NUL !in s[..k]
    ensures CString(s) == s[..k]
  {
    if k > 0 {
      assert s[0] == s[..k][0];
      assert s[1..][..k - 1] == s[..k][1..];
      CStringTo(s[1..], k - 1);
    }
  }

  lemma TextEnds(s: seq<Byte>)
    requires NUL in s
    ensures |CString(s)| < |s| && s[|CString(s)|] == NUL
    ensures forall k :: 0 <= k < |CString(s)| ==> s[k] == CString(s)[k] != NUL
  {
    assert s[..|s|] == s;
  }
}
