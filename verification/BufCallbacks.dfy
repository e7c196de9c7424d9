/** The callbacks a queue is drained into and filled from (`Curl_bufq_writer`, `Curl_bufq_reader`).
    Each is an arbitrary function of its call number and arguments, so a statement about every such
    object is a statement about every callback behaviour. */
module BufCallbacks {
  import opened Bytes

  datatype Code = Ok | Again | Fault(code: nat)

  /** Accept up to `n` of the offered bytes, or fail. */
  datatype WriterReply = Take(n: nat) | Refuse(again: bool, code: nat)

  /** Deliver bytes, as many as there is room for (none means end of file), or fail. */
  datatype ReaderReply = Give(bytes: seq<byte>) | Stop(again: bool, code: nat)

  class Writer {
    const behaviour: (nat, seq<byte>) -> WriterReply
    var calls: nat
    var accepted: seq<byte>
    var lastResult: int

    constructor (behaviour: (nat, seq<byte>) -> WriterReply)
      ensures this.behaviour == behaviour && calls == 0 && accepted == []
    {
      this.behaviour := behaviour;
      calls, accepted, lastResult := 0, [], 0;
    }

    method Call(buf: seq<byte>) returns (n: int, err: Code)
      requires buf != []
      modifies this
      ensures calls == old(calls) + 1 && lastResult == n
      ensures n < 0 ==> n == -1 && err != Ok && accepted == old(accepted)
      ensures n >= 0 ==> n <= |buf| && err == Ok && accepted == old(accepted) + buf[..n]
    {
      match behaviour(calls, buf) {
        case Take(k) =>
          n, err := Min(k, |buf|), Ok;
          accepted := accepted + buf[..n];
        case Refuse(again, code) =>
          n, err := -1, if again then Again else Fault(code);
      }
      calls := calls + 1;
      lastResult := n;
    }
  }

  class Reader {
    const behaviour: (nat, nat) -> ReaderReply
    var calls: nat
    var produced: seq<byte>
    var lastResult: int

    constructor (behaviour: (nat, nat) -> ReaderReply)
      ensures this.behaviour == behaviour && calls == 0 && produced == []
    {
      this.behaviour := behaviour;
      calls, produced, lastResult := 0, [], 0;
    }

    /** Whether the reader, on call `k`, leaves part of its room unused however much it has. */
    ghost predicate FallsShort(k: nat) {
      forall room: nat :: room > 0 ==> behaviour(k, room).Stop? || |behaviour(k, room).bytes| < room
    }

    /** Whether the reader, on call `k`, fills whatever room it is given. */
    ghost predicate Fills(k: nat) {
      forall room: nat :: room > 0 ==> behaviour(k, room).Give? && |behaviour(k, room).bytes| >= room
    }

    method Call(data: array<byte>, at: nat, room: nat) returns (n: int, err: Code)
      requires at + room <= data.Length && room > 0
      modifies this, data
      ensures calls == old(calls) + 1 && lastResult == n
      ensures n < 0 ==> n == -1 && err != Ok && produced == old(produced)
      ensures n >= 0 ==> n <= room && err == Ok && produced == old(produced) + data[at..at + n]
      ensures forall i :: 0 <= i < at ==> data[i] == old(data[i])
      ensures FallsShort(old(calls)) ==> n < room
      ensures Fills(old(calls)) ==> n == room
    {
      match behaviour(calls, room) {
        case Give(bytes) =>
          n, err := Min(|bytes|, room), Ok;
          forall i | 0 <= i < n {
            data[at + i] := bytes[i];
          }
          produced := produced + data[at..at + n];
        case Stop(again, code) =>
          n, err := -1, if again then Again else Fault(code);
      }
      calls := calls + 1;
      lastResult := n;
    }
  }
}
