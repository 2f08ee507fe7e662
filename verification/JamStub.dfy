/** The program as the player reads it from memory. */
module JamStub {

  /** jamstub.c's file buffer: `jam_seek(0)` and `jam_getc`. */
  class Reader<T(==)> {
    const program: seq<T>
    const eof: T
    var position: nat

    constructor (program: seq<T>, eof: T)
      ensures this.program == program && this.eof == eof && Rest() == program
    {
      this.program, this.eof := program, eof;
      position := 0;
    }

    function Rest(): seq<T>
      reads this
    {
      if position < |program| then program[position..] else []
    }

    /** `jam_getc` */
    method Getc() returns (ch: T)
      modifies this
      ensures ch == Head(old(Rest()), eof)
      ensures Rest() == Tail(old(Rest()))
    {
      ch := eof;
      if position < |program| {
        ch := program[position];
        position := position + 1;
      }
    }
  }

  function Head<T>(text: seq<T>, eof: T): T { if text == [] then eof else text[0] }

  function Tail<T>(text: seq<T>): seq<T> { if text == [] then [] else text[1..] }
}
