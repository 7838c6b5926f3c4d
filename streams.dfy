/** The engine's I/O collaborators: the input stream it chunks (Go's
    io.Reader / io.ReadSeeker) and the output sink it reconstructs into
    (Go's io.Writer). How many bytes a read hands over is the environment's
    choice, so a reader carries the schedule of its upcoming reads. */
module Streams {
  import opened Models

  /** What the next Read call does. */
  datatype Step =
    | Deliver(atMost: nat)   // hands over at most this many bytes; 0 means "nothing, and no error"
    | Faulty                 // reports an error other than end of input

  /** The error half of a read: none, end of input, or another error. */
  datatype Status = Good | Eof | Broken

  /** The state of an input stream: its bytes, the read position and the
      schedule of the next reads. Once the schedule is used up, every read
      fills the buffer as far as the data allows. */
  datatype Cursor = Cursor(data: seq<byte>, pos: nat, plan: seq<Step>)

  /** Number of bytes left to read (a position past the end leaves none). */
  function Remaining(c: Cursor): nat {
    if c.pos <= |c.data| then |c.data| - c.pos else 0
  }

  /** The n bytes at the read position. */
  function Taken(c: Cursor, n: nat): (bytes: seq<byte>)
    requires n <= Remaining(c)
    ensures |bytes| == n
    ensures forall i :: 0 <= i < n ==> bytes[i] == c.data[c.pos + i]
  {
    if n == 0 then [] else c.data[c.pos..c.pos + n]
  }

  datatype ReadResult = ReadResult(n: nat, status: Status, after: Cursor)

  /** One Read call with a buffer of `cap` bytes: an error step fails, an
      exhausted stream reports end of input, and otherwise the call hands
      over between 0 and `cap` of the remaining bytes, as the schedule says. */
  function ReadStep(c: Cursor, cap: nat): (r: ReadResult)
    ensures r.n <= cap && r.n <= Remaining(c)
    ensures r.after.data == c.data && r.after.pos == c.pos + r.n
    ensures r.status != Good ==> r.n == 0
    ensures c.plan == [] && r.status != Eof ==> r.status == Good && r.n == Min(cap, Remaining(c))
  {
    var plan' := if c.plan == [] then [] else c.plan[1..];
    if c.plan != [] && c.plan[0].Faulty? then
      ReadResult(0, Broken, c.(plan := plan'))
    else if Remaining(c) == 0 then
      ReadResult(0, Eof, c.(plan := plan'))
    else
      var limit := if c.plan == [] then cap else Min(cap, c.plan[0].atMost);
      var n := Min(limit, Remaining(c));
      ReadResult(n, Good, Cursor(c.data, c.pos + n, plan'))
  }

  function Min(a: nat, b: nat): nat {
    if a <= b then a else b
  }

  /** An input stream whose position and schedule change as it is read. */
  class Reader {
    const data: seq<byte>
    var pos: nat
    var plan: seq<Step>

    function State(): Cursor
      reads this
    {
      Cursor(data, pos, plan)
    }

    constructor (data: seq<byte>, plan: seq<Step>)
      ensures State() == Cursor(data, 0, plan)
    {
      this.data := data;
      this.pos := 0;
      this.plan := plan;
    }

    /** Reads into `p`, as ReadStep says, and copies the bytes it hands over
        to the front of `p`. */
    method Read(p: array<byte>) returns (n: nat, status: Status)
      modifies this, p
      ensures ReadResult(n, status, State()) == ReadStep(old(State()), p.Length)
      ensures p[..n] == Taken(old(State()), n)
    {
      var r := ReadStep(State(), p.Length);
      var bytes := Taken(State(), r.n);
      forall i | 0 <= i < r.n {
        p[i] := bytes[i];
      }
      n, status := r.n, r.status;
      pos, plan := r.after.pos, r.after.plan;
    }

    /** Moves the read position to `offset` from the start; a negative
        offset is refused and nothing changes. */
    method Seek(offset: int) returns (ok: bool)
      modifies this
      ensures ok == (offset >= 0)
      ensures State() == if offset >= 0 then old(State()).(pos := offset) else old(State())
    {
      ok := offset >= 0;
      if ok {
        pos := offset;
      }
    }
  }

  /** An output stream that takes a number of writes and then fails (a
      connection that drops). */
  class Sink {
    var written: seq<byte>
    var accepts: nat

    constructor (accepts: nat)
      ensures written == [] && this.accepts == accepts
    {
      written := [];
      this.accepts := accepts;
    }

    method Write(bytes: seq<byte>) returns (ok: bool)
      modifies this
      ensures ok == (old(accepts) > 0)
      ensures written == old(written) + (if ok then bytes else [])
      ensures accepts == if ok then old(accepts) - 1 else 0
    {
      ok := accepts > 0;
      if ok {
        written := written + bytes;
        accepts := accepts - 1;
      }
    }
  }
}
