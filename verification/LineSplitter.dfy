/** maslog's incremental line splitter: whatever pieces the network delivers, the log
    receives the non-empty lines of the whole stream, cut at the size of the message buffer. */
module LineSplitter {
  import opened Bits
  import opened CStrings

  const MAX_MSG: nat := 1024
  const NEWLINE: Byte := 10

  predicate Delimiter(b: Byte) { b == NEWLINE || b == NUL }

  // ----- the reference: lines, cut to size -----

  predicate NoDelimiter(s: seq<Byte>) {
    forall i :: 0 <= i < |s| ==> !Delimiter(s[i])
  }

  /** The bytes before the first delimiter. */
  function FirstLine(stream: seq<Byte>): (line: seq<Byte>)
    ensures |line| <= |stream| && line == stream[..|line|] && NoDelimiter(line)
    ensures |line| < |stream| ==> Delimiter(stream[|line|])
  {
    if stream == [] || Delimiter(stream[0]) then [] else [stream[0]] + FirstLine(stream[1..])
  }

  /** A line in pieces of at most `MAX_MSG - 1` bytes, all but the last full; an empty line has none. */
  function Cut(line: seq<Byte>): (pieces: seq<seq<Byte>>)
    ensures forall p :: p in pieces ==> 0 < |p| < MAX_MSG
    ensures Joined(pieces) == line
  {
    if line == [] then []
    else if |line| < MAX_MSG then [line]
    else
      var rest := Cut(line[MAX_MSG - 1..]);
      assert Joined([line[..MAX_MSG - 1]] + rest) == line[..MAX_MSG - 1] + Joined(rest) by {
        JoinedCons(line[..MAX_MSG - 1], rest);
      }
      [line[..MAX_MSG - 1]] + rest
  }

  function Joined(pieces: seq<seq<Byte>>): seq<Byte> {
    if pieces == [] then [] else pieces[0] + Joined(pieces[1..])
  }

  lemma JoinedCons(piece: seq<Byte>, rest: seq<seq<Byte>>)
    ensures Joined([piece] + rest) == piece + Joined(rest)
  {
    assert ([piece] + rest)[1..] == rest;
  }

  /** The pieces of a whole stream: those of its first line, then those of the rest. */
  function Pieces(stream: seq<Byte>): seq<seq<Byte>>
    decreases |stream|, 1
  {
    Cut(FirstLine(stream)) + Later(stream)
  }

  function Later(stream: seq<Byte>): seq<seq<Byte>>
    decreases |stream|, 0
  {
    var n := |FirstLine(stream)|;
    if n == |stream| then [] else Pieces(stream[n + 1..])
  }

  lemma PiecesStart(stream: seq<Byte>)
    requires stream != []
    ensures if Delimiter(stream[0]) then FirstLine(stream) == [] && Later(stream) == Pieces(stream[1..])
            else FirstLine(stream) == [stream[0]] + FirstLine(stream[1..]) && Later(stream) == Later(stream[1..])
  {
    hide Pieces;
    if !Delimiter(stream[0]) {
      var n := |FirstLine(stream)|;
      if n < |stream| {
        assert stream[n + 1..] == stream[1..][n..];
      }
    }
  }

  /** The bytes of a line: no new-line character and no NUL. */
  predicate IsLine(line: seq<Byte>) { forall i :: 0 <= i < |line| ==> line[i] != '\n' as int && line[i] != 0 }

  lemma {:induction false} FirstLineIs(line: seq<Byte>, end: Byte, rest: seq<Byte>)
    requires IsLine(line) && (end == '\n' as int || end == 0)
    ensures FirstLine(line) == line && FirstLine(line + ([end] + rest)) == line
    ensures Text(line) == line && Text(line + ([end] + rest)) == line + Text(rest)
  {
    hide FirstLine, Text;
    if line == [] {
      assert line + ([end] + rest) == [end] + rest;
      LineEnds(end, rest);
    } else {
      var more := line[1..] + ([end] + rest);
      assert line + ([end] + rest) == [line[0]] + more && line == [line[0]] + line[1..];
      FirstLineIs(line[1..], end, rest);
      LineBegins(line[0], more);
      LineBegins(line[0], line[1..]);
      assert [line[0]] + (line[1..] + Text(rest)) == line + Text(rest);
    }
  }

  lemma LineEnds(end: Byte, rest: seq<Byte>)
    requires end == '\n' as int || end == 0
    ensures FirstLine([]) == [] && FirstLine([end] + rest) == []
    ensures Text([]) == [] && Text([end] + rest) == Text(rest)
  {
    assert ([end] + rest)[1..] == rest;
  }

  lemma LineBegins(b: Byte, more: seq<Byte>)
    requires b != '\n' as int && b != 0
    ensures FirstLine([b] + more) == [b] + FirstLine(more) && Text([b] + more) == [b] + Text(more)
  {
    assert ([b] + more)[1..] == more;
  }

  /** A new-line character or a NUL ends a line, and nothing else does; an unfinished line is cut like another. */
  lemma LinesInTurn(line: seq<Byte>, end: Byte, rest: seq<Byte>)
    requires IsLine(line) && (end == '\n' as int || end == 0)
    ensures Pieces(line + ([end] + rest)) == Cut(line) + Pieces(rest)
    ensures Pieces(line) == Cut(line)
    ensures Text(line + ([end] + rest)) == line + Text(rest) && Text(line) == line
  {
    hide Cut, FirstLine, Text;
    FirstLineIs(line, end, rest);
    var stream := line + ([end] + rest);
    assert stream[|line| + 1..] == rest;
    assert Cut(line) + [] == Cut(line);
  }

  /** The pieces of a line: 1023 bytes in each but the last, which has between 1 and 1023. */
  lemma {:induction false} CutPieces(line: seq<Byte>)
    ensures var pieces := Cut(line);
            && (pieces == [] <==> line == [])
            && (forall i :: 0 <= i < |pieces| - 1 ==> |pieces[i]| == 1023)
            && (pieces != [] ==> 1 <= |pieces[|pieces| - 1]| <= 1023)
            && Joined(pieces) == line
    decreases |line|
  {
    var pieces := Cut(line);
    if |line| >= MAX_MSG {
      CutPieces(line[MAX_MSG - 1..]);
      assert pieces[1..] == Cut(line[MAX_MSG - 1..]);
    }
  }

  // ----- one byte at a time -----

  /** `current` is the piece being collected, `logged` what log_string has been given. */
  datatype Splitter = Splitter(current: seq<Byte>, logged: seq<seq<Byte>>) {
    predicate Valid() { |current| < MAX_MSG && NoDelimiter(current) }
  }

  function Feed(s: Splitter, b: Byte): Splitter {
    if Delimiter(b) then Splitter([], if s.current == [] then s.logged else s.logged + [s.current])
    else if |s.current| == MAX_MSG - 1 then Splitter([b], s.logged + [s.current])
    else Splitter(s.current + [b], s.logged)
  }

  function FeedAll(s: Splitter, bytes: seq<Byte>): Splitter
    decreases |bytes|
  {
    if bytes == [] then s else FeedAll(Feed(s, bytes[0]), bytes[1..])
  }

  lemma {:induction false} FeedConcat(s: Splitter, a: seq<Byte>, b: seq<Byte>)
    ensures FeedAll(s, a + b) == FeedAll(FeedAll(s, a), b)
    decreases |a|
  {
    hide Feed;
    if a == [] {
      assert a + b == b;
    } else {
      assert (a + b)[1..] == a[1..] + b;
      FeedConcat(Feed(s, a[0]), a[1..], b);
    }
  }

  lemma FeedOne(s: Splitter, bytes: seq<Byte>, k: nat)
    requires k < |bytes|
    ensures FeedAll(s, bytes[..k + 1]) == Feed(FeedAll(s, bytes[..k]), bytes[k])
  {
    hide Feed;
    assert bytes[..k + 1] == bytes[..k] + [bytes[k]];
    FeedConcat(s, bytes[..k], [bytes[k]]);
    assert [bytes[k]][1..] == [];
  }

  lemma {:induction false} FeedPlain(s: Splitter, bytes: seq<Byte>)
    requires NoDelimiter(bytes) && |s.current| + |bytes| < MAX_MSG
    ensures FeedAll(s, bytes) == Splitter(s.current + bytes, s.logged)
    decreases |bytes|
  {
    if bytes == [] {
      assert s.current + bytes == s.current;
    } else {
      FeedPlain(Feed(s, bytes[0]), bytes[1..]);
      assert s.current + [bytes[0]] + bytes[1..] == s.current + bytes;
    }
  }

  lemma {:induction false} FeedKeepsValid(s: Splitter, bytes: seq<Byte>)
    requires s.Valid()
    ensures FeedAll(s, bytes).Valid()
    decreases |bytes|
  {
    if bytes != [] {
      FeedKeepsValid(Feed(s, bytes[0]), bytes[1..]);
    }
  }

  /** What has been logged, and the piece still being collected. */
  function Output(s: Splitter): seq<seq<Byte>> {
    s.logged + if s.current == [] then [] else [s.current]
  }

  lemma CutFull(piece: seq<Byte>, more: seq<Byte>)
    requires |piece| == MAX_MSG - 1 && more != []
    ensures Cut(piece + more) == [piece] + Cut(more)
  {
    assert (piece + more)[..MAX_MSG - 1] == piece && (piece + more)[MAX_MSG - 1..] == more;
  }

  /** Byte by byte or line by line, the pieces are the same. */
  lemma {:induction false} FeedIsPieces(s: Splitter, stream: seq<Byte>)
    requires s.Valid()
    ensures Output(FeedAll(s, stream)) == s.logged + Cut(s.current + FirstLine(stream)) + Later(stream)
    decreases |stream|
  {
    hide Cut, NoDelimiter, Pieces, Later, FirstLine, Delimiter;
    CutShort(s.current);
    if stream == [] {
      assert FirstLine(stream) == [] && Later(stream) == [] by {
        NoPieces();
      }
      assert s.current + [] == s.current;
    } else {
      FeedKept(s, stream[0]);
      FeedIsPieces(Feed(s, stream[0]), stream[1..]);
      PiecesStart(stream);
      CutNext(s, stream);
    }
  }

  lemma NoPieces()
    ensures FirstLine([]) == [] && Later([]) == []
  {}

  lemma CutNext(s: Splitter, stream: seq<Byte>)
    requires s.Valid() && stream != []
    requires Delimiter(stream[0]) ==> FirstLine(stream) == []
    requires !Delimiter(stream[0]) ==> FirstLine(stream) == [stream[0]] + FirstLine(stream[1..])
    requires if Delimiter(stream[0]) then Later(stream) == Pieces(stream[1..]) else Later(stream) == Later(stream[1..])
    ensures var t := Feed(s, stream[0]);
            t.logged + Cut(t.current + FirstLine(stream[1..])) + Later(stream[1..]) ==
            s.logged + Cut(s.current + FirstLine(stream)) + Later(stream)
  {
    hide Cut, NoDelimiter, Later, FirstLine, Delimiter;
    var b, line := stream[0], FirstLine(stream[1..]);
    if Delimiter(b) {
      assert s.current + [] == s.current && [] + line == line;
      CutShort(s.current);
      assert Pieces(stream[1..]) == Cut(line) + Later(stream[1..]);
    } else if |s.current| == MAX_MSG - 1 {
      CutFull(s.current, [b] + line);
    } else {
      assert s.current + [b] + line == s.current + ([b] + line);
    }
  }

  lemma CutShort(line: seq<Byte>)
    requires |line| < MAX_MSG
    ensures Cut(line) == if line == [] then [] else [line]
  {}

  lemma FeedKept(s: Splitter, b: Byte)
    requires s.Valid()
    ensures Feed(s, b).Valid()
  {}

  const FRESH := Splitter([], [])

  function Received(s: Splitter, chunks: seq<seq<Byte>>): Splitter
    decreases |chunks|
  {
    if chunks == [] then s else Received(FeedAll(s, chunks[0]), chunks[1..])
  }

  lemma {:induction false} ReceivedIsWhole(s: Splitter, chunks: seq<seq<Byte>>)
    ensures Received(s, chunks) == FeedAll(s, Joined(chunks))
    decreases |chunks|
  {
    hide Feed;
    if chunks != [] {
      FeedConcat(s, chunks[0], Joined(chunks[1..]));
      ReceivedIsWhole(FeedAll(s, chunks[0]), chunks[1..]);
    }
  }

  /** However the stream is cut into chunks, the log receives the pieces of the whole stream;
      only the last, unfinished one is still held. */
  lemma FragmentationIndependent(chunks: seq<seq<Byte>>)
    ensures var s := Received(FRESH, chunks);
            s.Valid() && Output(s) == Pieces(Joined(chunks))
  {
    hide Cut;
    var stream := Joined(chunks);
    ReceivedIsWhole(FRESH, chunks);
    FeedKeepsValid(FRESH, stream);
    FeedIsPieces(FRESH, stream);
    assert [] + FirstLine(stream) == FirstLine(stream);
    assert [] + Cut(FirstLine(stream)) == Cut(FirstLine(stream));
  }

  function Text(stream: seq<Byte>): seq<Byte> {
    if stream == [] then []
    else if Delimiter(stream[0]) then Text(stream[1..])
    else [stream[0]] + Text(stream[1..])
  }

  lemma {:induction false} JoinedSnoc(pieces: seq<seq<Byte>>, piece: seq<Byte>)
    ensures Joined(pieces + [piece]) == Joined(pieces) + piece
  {
    if pieces == [] {
      assert [piece][1..] == [];
      assert [] + piece == piece + [] == piece;
    } else {
      assert (pieces + [piece])[1..] == pieces[1..] + [piece];
      JoinedSnoc(pieces[1..], piece);
    }
  }

  /** No byte other than the delimiters is lost, repeated or moved. */
  lemma {:induction false} NothingLost(s: Splitter, stream: seq<Byte>)
    ensures var t := FeedAll(s, stream);
            Joined(t.logged) + t.current == Joined(s.logged) + s.current + Text(stream)
    decreases |stream|
  {
    hide Feed, Joined, Delimiter;
    if stream == [] {
      assert Joined(s.logged) + s.current + [] == Joined(s.logged) + s.current;
    } else {
      OneKept(s, stream[0]);
      NothingLost(Feed(s, stream[0]), stream[1..]);
      TextCons(stream);
    }
  }

  function TextOf(b: Byte): seq<Byte> { if Delimiter(b) then [] else [b] }

  lemma TextCons(stream: seq<Byte>)
    requires stream != []
    ensures Text(stream) == TextOf(stream[0]) + Text(stream[1..])
  {}

  lemma OneKept(s: Splitter, b: Byte)
    ensures var t := Feed(s, b);
            Joined(t.logged) + t.current == Joined(s.logged) + s.current + TextOf(b)
  {
    hide Joined, Delimiter;
    JoinedSnoc(s.logged, s.current);
  }

  // ----- the buffer -----

  /** `massock_client_t`, and what has been passed to log_string. */
  class Client {
    const buf: array<Byte>
    var idx: nat
    var logged: seq<seq<Byte>>

    constructor ()
      ensures Valid() && View() == FRESH && fresh(buf)
    {
      buf := new Byte[MAX_MSG];
      idx, logged := 0, [];
    }

    ghost predicate Valid()
      reads this, buf
    {
      buf.Length == MAX_MSG && idx < MAX_MSG && NoDelimiter(buf[..idx])
    }

    function View(): Splitter
      reads this, buf
      requires idx <= buf.Length
    {
      Splitter(buf[..idx], logged)
    }

    /** `massock_client_recv` with data, which never exceeds the room it asks for. */
    method Receive(chunk: seq<Byte>)
      requires Valid() && |chunk| <= MAX_MSG - idx
      modifies this`idx, buf
      ensures idx == old(idx) + |chunk| && buf[..idx] == old(buf[..idx]) + chunk
    {
      for i := 0 to |chunk|
        invariant idx == old(idx)
        invariant forall k :: 0 <= k < idx ==> buf[k] == old(buf[k])
        invariant forall k :: 0 <= k < i ==> buf[idx + k] == chunk[k]
      {
        buf[idx + i] := chunk[i];
      }
      idx := idx + |chunk|;
    }

    method LogString(start: nat)
      requires start <= buf.Length
      modifies this`logged
      ensures logged == old(logged) + [CString(buf[start..])]
    {
      logged := logged + [CString(buf[start..])];
    }

    /** The walk of `log_client_process` along the filled part of the buffer: complete lines are
        terminated in place and logged; `start` is where the unfinished one begins. */
    method Walk() returns (start: nat)
      requires idx <= buf.Length == MAX_MSG
      modifies this`logged, buf
      ensures start <= idx && NoDelimiter(old(buf[..idx])[start..])
      ensures start > 0 ==> Delimiter(old(buf[..idx])[start - 1])
      ensures forall k :: start <= k < idx ==> buf[k] == old(buf[k])
      ensures FeedAll(Splitter([], old(logged)), old(buf[..idx])) == Expected(old(buf[..idx]), start, idx, logged)
    {
      hide Feed, FeedAll, Expected, CString, NoDelimiter;
      ghost var all := buf[..idx];
      ghost var s0 := Splitter([], logged);
      start := 0;
      var stop := 0;
      FeedNone(s0, all);
      while stop < idx
        invariant start <= stop <= idx
        invariant forall k :: start <= k < idx ==> buf[k] == all[k]
        invariant NoDelimiter(all[start..stop]) && (start > 0 ==> Delimiter(all[start - 1]))
        invariant FeedAll(s0, all[..stop]) == Expected(all, start, stop, logged)
        modifies this`logged, buf
      {
        FeedOne(s0, all, stop);
        ExpectedNext(all, start, stop, logged);
        if buf[stop] == NEWLINE {
          buf[stop] := NUL;
        }
        if buf[stop] == NUL {
          if stop != start {
            assert buf[start..stop] == all[start..stop];
            StringAt(buf[..], start, stop);
            LogString(start);
          }
          start := stop + 1;
          stop := start;
        } else {
          stop := stop + 1;
        }
      }
      assert all[start..stop] == all[start..] && all[..stop] == all;
    }

    /** `log_client_process` */
    method Process() returns (overflow: bool)
      requires idx <= buf.Length == MAX_MSG
      modifies this, buf
      ensures Valid() && View() == FeedAll(Splitter([], old(logged)), old(buf[..idx]))
      ensures overflow == (old(idx) == MAX_MSG && NoDelimiter(old(buf[..idx])))
    {
      hide Feed, FeedAll, CString;
      ghost var all := buf[..idx];
      var stop := idx;
      var start := Walk();
      idx := stop - start;
      if stop - start == MAX_MSG {
        var temp := buf[stop - 1];
        buf[stop - 1] := NUL;
        assert buf[..][start..stop - 1] == all[..stop - 1];
        assert NoDelimiter(all[..stop - 1]);
        StringAt(buf[..], start, stop - 1);
        LogString(start);
        buf[0] := temp;
        idx := 1;
        assert buf[..idx] == [all[stop - 1]];
        return true;
      }
      overflow := false;
      var to := 0;
      ghost var from := start;
      while start < stop
        invariant from <= start <= stop && to == start - from
        invariant forall k :: 0 <= k < to ==> buf[k] == all[from + k]
        invariant forall k :: start <= k < stop ==> buf[k] == all[k]
        modifies buf
      {
        buf[to] := buf[start];
        to, start := to + 1, start + 1;
      }
      assert buf[..idx] == all[from..stop];
    }

    /** One round of the main loop for this client: receive, then process. */
    method Round(chunk: seq<Byte>)
      requires Valid() && |chunk| <= MAX_MSG - idx
      modifies this, buf
      ensures Valid() && View() == FeedAll(old(View()), chunk)
    {
      hide Feed, FeedAll;
      ghost var held := buf[..idx];
      Receive(chunk);
      FeedConcat(Splitter([], logged), held, chunk);
      FeedPlain(Splitter([], logged), held);
      assert [] + held == held;
      var overflow := Process();
    }

    /** A chunk that has arrived at the socket: each round takes what there is room for. */
    method Drain(chunk: seq<Byte>)
      requires Valid()
      modifies this, buf
      ensures Valid() && View() == FeedAll(old(View()), chunk)
    {
      hide Feed, FeedAll;
      var taken := 0;
      FeedNothing(View());
      assert chunk[..0] == [];
      while taken < |chunk|
        invariant taken <= |chunk| && Valid() && View() == FeedAll(old(View()), chunk[..taken])
      {
        var n := if |chunk| - taken <= MAX_MSG - idx then |chunk| - taken else MAX_MSG - idx;
        Round(chunk[taken..taken + n]);
        FeedConcat(old(View()), chunk[..taken], chunk[taken..taken + n]);
        assert chunk[..taken + n] == chunk[..taken] + chunk[taken..taken + n];
        taken := taken + n;
      }
      assert chunk[..|chunk|] == chunk;
    }

    /** All rounds of a connection: whatever the chunks, what has been logged, with the unfinished
        piece in the buffer, is the stream cut into its pieces. */
    method Serve(chunks: seq<seq<Byte>>)
      requires Valid()
      modifies this, buf
      ensures Valid() && View() == Received(old(View()), chunks)
      ensures old(View()) == FRESH ==> Output(View()) == Pieces(Joined(chunks))
      ensures Joined(logged) + buf[..idx] == old(Joined(logged) + buf[..idx]) + Text(Joined(chunks))
    {
      hide FeedAll, Output, Pieces, Joined, Text;
      assert chunks[0..] == chunks;
      for i := 0 to |chunks|
        invariant Valid() && Received(View(), chunks[i..]) == Received(old(View()), chunks)
      {
        assert chunks[i..][1..] == chunks[i + 1..];
        Drain(chunks[i]);
      }
      FragmentationIndependent(chunks);
      ReceivedIsWhole(old(View()), chunks);
      NothingLost(old(View()), Joined(chunks));
    }
  }

  lemma FeedNothing(s: Splitter)
    ensures FeedAll(s, []) == s
  {}

  /** What should have been logged when the walk stands at `stop` with its line begun at `start`;
      a full buffer is still to be flushed. */
  function Expected(all: seq<Byte>, start: nat, stop: nat, logged: seq<seq<Byte>>): Splitter
    requires start <= stop <= |all| <= MAX_MSG
  {
    if stop - start < MAX_MSG then Splitter(all[start..stop], logged)
    else Splitter([all[stop - 1]], logged + [all[start..stop - 1]])
  }

  lemma ExpectedNext(all: seq<Byte>, start: nat, stop: nat, logged: seq<seq<Byte>>)
    requires start <= stop < |all| <= MAX_MSG && NoDelimiter(all[start..stop])
    ensures Delimiter(all[stop]) ==>
              && NoDelimiter(all[stop + 1..stop + 1])
              && Feed(Expected(all, start, stop, logged), all[stop]) ==
                 Expected(all, stop + 1, stop + 1, if start == stop then logged else logged + [all[start..stop]])
    ensures !Delimiter(all[stop]) ==>
              && NoDelimiter(all[start..stop + 1])
              && Feed(Expected(all, start, stop, logged), all[stop]) == Expected(all, start, stop + 1, logged)
  {
    assert all[start..stop + 1] == all[start..stop] + [all[stop]];
  }

  lemma FeedNone(s: Splitter, all: seq<Byte>)
    requires s.current == [] && |all| <= MAX_MSG
    ensures FeedAll(s, all[..0]) == s == Expected(all, 0, 0, s.logged)
    ensures NoDelimiter(all[0..0])
  {}

  lemma StringAt(s: seq<Byte>, start: nat, stop: nat)
    requires start <= stop < |s| && s[stop] == NUL && NoDelimiter(s[start..stop])
    ensures CString(s[start..]) == s[start..stop]
  {
    assert s[start..][..stop - start] == s[start..stop];
    if NUL in s[start..stop] {
      assert Delimiter(NUL);
    }
    CStringTo(s[start..], stop - start);
  }
}
