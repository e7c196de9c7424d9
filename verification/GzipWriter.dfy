/** The gzip writer of content_encoding.c on the path where the header and the trailer are skipped by
    hand (`gzip_do_write`, `process_trailer`), with the decompressor as a parameter. */
module GzipWriter {
  import opened Bytes
  import opened GzipHeader

  datatype Code = Ok | WriteError | BadContentEncoding

  /** What a raw inflate says after consuming some bytes: wants more, is at the end, or found an error. */
  datatype Status = More | End | Broken

  datatype ZState = Uninit | Init | GzipHeaderPart | Inflating | Trailer

  /** How many bytes of `input` an inflate that consumed `fed` so far takes: it stops at the first point
      where it does not want more. */
  function Taken(decode: seq<byte> -> Status, fed: seq<byte>, input: seq<byte>): (n: nat)
    ensures n <= |input|
    ensures n < |input| ==> decode(fed + input[..n]) != More
    decreases |input|
  {
    if input == [] || decode(fed) != More then
      assert fed + input[..0] == fed;
      0
    else
      var n := Taken(decode, fed + [input[0]], input[1..]);
      assert fed + [input[0]] + input[1..][..n] == fed + input[..1 + n];
      1 + n
  }

  lemma {:induction false} TakenTwice(decode: seq<byte> -> Status, fed: seq<byte>, a: seq<byte>, b: seq<byte>)
    ensures var n := Taken(decode, fed, a);
      Taken(decode, fed, a + b) == if decode(fed + a[..n]) != More then n else |a| + Taken(decode, fed + a, b)
    decreases |a|
  {
    if a == [] {
      assert a + b == b && fed + a == fed && fed + a[..0] == fed;
    } else if decode(fed) == More {
      assert (a + b)[0] == a[0] && (a + b)[1..] == a[1..] + b;
      var next := fed + [a[0]];
      TakenTwice(decode, next, a[1..], b);
      assert next + a[1..] == fed + a;
      var n := Taken(decode, next, a[1..]);
      assert next + a[1..][..n] == fed + a[..1 + n];
    } else {
      assert fed + a[..0] == fed;
    }
  }

  // ---------- what a whole stream should give ----------

  /** The bytes inflate gets and the verdict, for a stream seen at once: the header is skipped, inflate
      takes what it wants, and at most 8 bytes may follow it (section 2.3 of RFC 1952). */
  function Outcome(decode: seq<byte> -> Status, stream: seq<byte>): (seq<byte>, Code) {
    match Check(stream)
    case Underflow => ([], Ok)
    case Bad => ([], BadContentEncoding)
    case Good(len) =>
      var body := stream[len..];
      var n := Taken(decode, [], body);
      if body == [] then ([], Ok)
      else match decode(body[..n])
        case More => (body, Ok)
        case Broken => (body[..n], BadContentEncoding)
        case End => (body[..n], if |body| - n <= 8 then Ok else WriteError)
  }

  /** A failure is final: nothing that follows changes the verdict or the bytes inflate got. */
  lemma FailureIsFinal(decode: seq<byte> -> Status, stream: seq<byte>, more: seq<byte>)
    requires Outcome(decode, stream).1 != Ok
    ensures Outcome(decode, stream + more) == Outcome(decode, stream)
  {
    VerdictIsFinal(stream, more);
    if Check(stream).Good? {
      var body := stream[Check(stream).len..];
      assert (stream + more)[Check(stream).len..] == body + more;
      TakenTwice(decode, [], body, more);
      var n := Taken(decode, [], body);
      assert [] + body[..n] == body[..n] && (body + more)[..n] == body[..n];
    }
  }

  /** A gzip file (section 2.3 of RFC 1952): any header, compressed data that is complete and no longer, and
      what follows. Inflate gets exactly the compressed data, and up to 8 bytes may follow it. */
  lemma WholeFile(decode: seq<byte> -> Status, h: Header, body: seq<byte>, trailer: seq<byte>)
    requires WellFormed(h) && body != [] && decode(body) == End
    requires forall n :: 0 <= n < |body| ==> decode(body[..n]) == More
    ensures Outcome(decode, Encode(h) + body + trailer) == (body, if |trailer| <= 8 then Ok else WriteError)
  {
    AcceptsEncoded(h, body + trailer);
    Associate(Encode(h), body, trailer);
    var stream := Encode(h) + (body + trailer);
    assert stream[|Encode(h)|..] == body + trailer;
    hide Check, Encode;
    forall n | 0 <= n < |body|
      ensures decode([] + body[..n]) == More
    {
      assert [] + body[..n] == body[..n];
    }
    TakenAll(decode, [], body);
    TakenTwice(decode, [], body, trailer);
    assert [] + body[..|body|] == body && (body + trailer)[..|body|] == body;
  }

  lemma {:induction false} TakenAll(decode: seq<byte> -> Status, fed: seq<byte>, input: seq<byte>)
    requires forall n :: 0 <= n < |input| ==> decode(fed + input[..n]) == More
    ensures Taken(decode, fed, input) == |input|
    decreases |input|
  {
    if input != [] {
      assert fed + input[..0] == fed;
      forall n | 0 <= n < |input| - 1
        ensures decode(fed + [input[0]] + input[1..][..n]) == More
      {
        assert fed + [input[0]] + input[1..][..n] == fed + input[..n + 1];
      }
      TakenAll(decode, fed + [input[0]], input[1..]);
    }
  }

  /** The outcome while inflate wants more: `fed` is what it has, `input` what comes. */
  lemma OutcomeInflating(decode: seq<byte> -> Status, stream: seq<byte>, fed: seq<byte>, input: seq<byte>)
    requires Check(stream).Good? && stream[Check(stream).len..] == fed + input && input != []
    requires fed != [] ==> Taken(decode, [], fed) == |fed| && decode(fed) == More
    ensures var n := Taken(decode, fed, input); var all := fed + input[..n];
      Outcome(decode, stream) == (all, match decode(all)
        case More => Ok
        case Broken => BadContentEncoding
        case End => if |input| - n <= 8 then Ok else WriteError)
    ensures var n := Taken(decode, fed, input);
      decode(fed + input[..n]) == More ==> n == |input| && Taken(decode, [], fed + input) == |fed + input|
  {
    hide Check, Taken;
    TakenAfter(decode, fed, input);
    var n := Taken(decode, fed, input);
    assert (fed + input)[..|fed| + n] == fed + input[..n];
    assert n == |input| ==> input[..n] == input;
  }

  lemma TakenAfter(decode: seq<byte> -> Status, fed: seq<byte>, input: seq<byte>)
    requires fed != [] ==> Taken(decode, [], fed) == |fed| && decode(fed) == More
    ensures Taken(decode, [], fed + input) == |fed| + Taken(decode, fed, input)
  {
    assert [] + fed == fed && fed[..|fed|] == fed;
    TakenTwice(decode, [], fed, input);
    assert fed == [] ==> fed + input == input;
  }

  /** The outcome once inflate is at its end. */
  lemma OutcomeAtEnd(decode: seq<byte> -> Status, stream: seq<byte>, fed: seq<byte>, more: seq<byte>)
    requires Check(stream).Good? && |stream| > Check(stream).len && |stream| >= Check(stream).len + |fed|
    requires Outcome(decode, stream).0 == fed && decode(fed) == End
    ensures Outcome(decode, stream + more) ==
      (fed, if |stream| + |more| - Check(stream).len - |fed| <= 8 then Ok else WriteError)
    ensures Check(stream + more) == Check(stream)
  {
    VerdictIsFinal(stream, more);
    var body := stream[Check(stream).len..];
    assert (stream + more)[Check(stream).len..] == body + more;
    TakenTwice(decode, [], body, more);
    var n := Taken(decode, [], body);
    assert [] + body[..n] == body[..n] && (body + more)[..n] == body[..n];
    assert body[..|body|] == body;
  }

  class Writer {
    const decode: seq<byte> -> Status
    var state: ZState
    var block: seq<byte>        // header bytes seen so far, kept in state GzipHeaderPart
    var trailerLen: nat
    var fed: seq<byte>          // what inflate has consumed
    ghost var stream: seq<byte> // everything written

    /** `gzip_do_init` with an old zlib. */
    constructor (decode: seq<byte> -> Status)
      ensures Valid() && this.decode == decode && stream == [] && fed == []
    {
      this.decode := decode;
      state, block, trailerLen, fed, stream := Init, [], 8, [], [];
    }

    /** The writer after writes that all succeeded. */
    ghost predicate Valid()
      reads this
    {
      && Outcome(decode, stream) == (fed, Ok)
      && match state
         case Init => stream == [] && fed == [] && trailerLen == 8
         case GzipHeaderPart =>
           && stream != [] && Check(stream).Underflow? && block == stream
           && fed == [] && trailerLen == 8
         case Inflating => Check(stream).Good? && trailerLen == 8 && fed == stream[Check(stream).len..]
           && (fed != [] ==> Taken(decode, [], fed) == |fed| && decode(fed) == More)
         case Trailer => 0 < trailerLen <= 8 && AtEnd(8 - trailerLen)
         case Uninit => AtEnd(8)
    }

    /** The compressed data has ended, and `rest` bytes have followed it. */
    ghost predicate AtEnd(rest: int)
      reads this
    {
      && Check(stream).Good? && |stream| == Check(stream).len + |fed| + rest
      && decode(fed) == End && |stream| > Check(stream).len
    }

    /** `process_trailer`, for `input` that follows the compressed data. */
    method ProcessTrailer(input: seq<byte>) returns (code: Code)
      modifies this`trailerLen, this`state
      ensures code == if |input| > old(trailerLen) then WriteError else Ok
      ensures code == Ok ==>
        trailerLen == old(trailerLen) - |input| && state == if trailerLen == 0 then Uninit else Trailer
    {
      var len := Min(|input|, trailerLen);
      trailerLen := trailerLen - len;
      code := if |input| > len then WriteError else Ok;
      state := if code != Ok || trailerLen == 0 then Uninit else Trailer;
    }

    /** The inflate loop: consumes until the decompressor stops wanting more. */
    method Feed(input: seq<byte>) returns (n: nat)
      modifies this`fed
      ensures n == Taken(decode, old(fed), input) && fed == old(fed) + input[..n]
    {
      n := 0;
      while n < |input| && decode(fed) == More
        invariant n <= |input| && fed == old(fed) + input[..n]
        invariant Taken(decode, old(fed), input) == n + Taken(decode, fed, input[n..])
      {
        assert input[n..][0] == input[n] && input[n..][1..] == input[n + 1..];
        assert input[..n + 1] == input[..n] + [input[n]];
        fed := fed + [input[n]];
        n := n + 1;
      }
    }

    /** `inflate_stream`. */
    method InflateStream(input: seq<byte>) returns (code: Code)
      requires input != []
      modifies this`state, this`fed, this`trailerLen
      ensures old(state) != Inflating ==> code == WriteError && fed == old(fed)
      ensures old(state) == Inflating ==>
        var n := Taken(decode, old(fed), input);
        && fed == old(fed) + input[..n]
        && (decode(fed) == More ==> code == Ok && state == Inflating && trailerLen == old(trailerLen))
        && (decode(fed) == Broken ==> code == BadContentEncoding)
        && (decode(fed) == End ==> code == if |input| - n > old(trailerLen) then WriteError else Ok)
        && (decode(fed) == End && code == Ok ==>
          trailerLen == old(trailerLen) - (|input| - n) && state == if trailerLen == 0 then Uninit else Trailer)
    {
      if state != Inflating {
        state := Uninit;
        return WriteError;
      }
      var n := Feed(input);
      match decode(fed) {
        case More =>
          return Ok;
        case Broken =>
          state := Uninit;
          return BadContentEncoding;
        case End =>
          code := ProcessTrailer(input[n..]);
      }
    }

    /** The last part of `gzip_do_write`: hands what is left of the write to inflate, if anything is. */
    method Pass(input: seq<byte>) returns (code: Code)
      requires state == Inflating && trailerLen == 8
      requires Check(stream).Good? && stream[Check(stream).len..] == fed + input
      requires fed != [] ==> Taken(decode, [], fed) == |fed| && decode(fed) == More
      requires input == [] ==> fed == []
      modifies this`state, this`fed, this`trailerLen
      ensures Outcome(decode, stream) == (fed, code)
      ensures code == Ok ==> Valid()
    {
      if input == [] {
        return Ok;
      }
      OutcomeInflating(decode, stream, fed, input);
      assert |stream| == Check(stream).len + |fed| + |input|;
      hide Check, Outcome;
      code := InflateStream(input);
      if decode(fed) == More {
        assert fed == old(fed) + input;
      }
    }

    /** The first write: a whole header, or the start of one. */
    method FirstWrite(buf: seq<byte>) returns (code: Code)
      requires state == Init && stream == buf != [] && fed == [] && trailerLen == 8
      modifies this`state, this`fed, this`trailerLen, this`block
      ensures (fed, code) == Outcome(decode, stream)
      ensures code == Ok ==> Valid()
    {
      var v := CheckGzipHeader(buf);
      match v {
        case Good(len) =>
          state := Inflating;
          assert fed + buf[len..] == buf[len..];
          code := Pass(buf[len..]);
        case Underflow =>
          block, state := buf, GzipHeaderPart;
          return Ok;
        case Bad =>
          state := Uninit;
          return BadContentEncoding;
      }
    }

    /** A write to an unfinished header; if it ends in this write, inflate gets the rest of the write. */
    method HeaderWrite(ghost before: seq<byte>, buf: seq<byte>) returns (code: Code)
      requires state == GzipHeaderPart && block == before && stream == before + buf && buf != []
      requires Check(before).Underflow? && fed == [] && trailerLen == 8
      modifies this`state, this`fed, this`trailerLen, this`block
      ensures (fed, code) == Outcome(decode, stream)
      ensures code == Ok ==> Valid()
    {
      var avail := |block| + |buf|;
      block := block + buf;
      var v := CheckGzipHeader(block);
      match v {
        case Good(len) =>
          HeaderEndsInLatest(before, buf);
          var at := len + |buf| - avail;
          block, state := [], Inflating;
          assert fed + buf[at..] == stream[len..];
          code := Pass(buf[at..]);
        case Underflow =>
          return Ok;
        case Bad =>
          state := Uninit;
          return BadContentEncoding;
      }
    }

    /** A write behind the end of the compressed data, which `rest` bytes have followed. */
    method EndWrite(ghost before: seq<byte>, buf: seq<byte>, rest: int) returns (code: Code)
      requires stream == before + buf && buf != [] && Check(before).Good? && Outcome(decode, before) == (fed, Ok)
      requires |before| == Check(before).len + |fed| + rest && |before| > Check(before).len && decode(fed) == End
      requires if state == Trailer then 0 < trailerLen == 8 - rest <= 8 else state == Uninit && rest == 8
      modifies this`state, this`fed, this`trailerLen
      ensures (fed, code) == Outcome(decode, stream)
      ensures code == Ok ==> Valid()
    {
      OutcomeAtEnd(decode, before, fed, buf);
      hide Check, Outcome, Taken;
      if state == Trailer {
        code := ProcessTrailer(buf);
      } else {
        code := InflateStream(buf);
      }
    }

    /** `gzip_do_write`: after each write the verdict and the bytes inflate got are those of the whole
        stream so far. */
    method Write(buf: seq<byte>) returns (code: Code)
      requires Valid()
      modifies this
      ensures stream == old(stream) + buf
      ensures (fed, code) == Outcome(decode, stream)
      ensures code == Ok ==> Valid()
    {
      hide Check, Outcome, Taken;
      stream := stream + buf;
      if buf == [] {
        assert stream == old(stream);
        return Ok;
      }
      match state {
        case Init =>
          assert stream == buf;
          code := FirstWrite(buf);
        case GzipHeaderPart =>
          code := HeaderWrite(old(stream), buf);
        case Trailer =>
          code := EndWrite(old(stream), buf, 8 - trailerLen);
        case Inflating =>
          VerdictIsFinal(old(stream), buf);
          assert stream[Check(stream).len..] == fed + buf;
          code := Pass(buf);
        case Uninit =>
          code := EndWrite(old(stream), buf, 8);
      }
    }
  }

  function Concat(writes: seq<seq<byte>>): seq<byte> {
    if writes == [] then [] else writes[0] + Concat(writes[1..])
  }

  lemma {:induction false} ConcatSplit(writes: seq<seq<byte>>, i: nat)
    requires i <= |writes|
    ensures Concat(writes) == Concat(writes[..i]) + Concat(writes[i..])
  {
    if i == 0 {
      assert writes[..0] == [] && writes[0..] == writes;
    } else {
      ConcatSplit(writes[1..], i - 1);
      assert writes[..i][1..] == writes[1..][..i - 1] && writes[1..][i - 1..] == writes[i..];
      Associate(writes[0], Concat(writes[1..][..i - 1]), Concat(writes[i..]));
    }
  }

  lemma ConcatMore(writes: seq<seq<byte>>, i: nat)
    requires i < |writes|
    ensures Concat(writes[..i + 1]) == Concat(writes[..i]) + writes[i]
  {
    ConcatSplit(writes[..i + 1], i);
    assert writes[..i + 1][..i] == writes[..i] && writes[..i + 1][i..] == [writes[i]];
    assert [writes[i]][1..] == writes[..0];
    assert Concat([writes[i]]) == writes[i] + Concat(writes[..0]);
  }

  /** However a stream is cut into writes, the caller, who stops at the first failure, gets the verdict of
      the whole stream, and inflate gets the same bytes. */
  method WriteAll(decode: seq<byte> -> Status, writes: seq<seq<byte>>) returns (fed: seq<byte>, code: Code)
    ensures (fed, code) == Outcome(decode, Concat(writes))
  {
    hide Check, Outcome, Taken, Concat;
    var w := new Writer(decode);
    assert Concat(writes[..0]) == [] by {
      ConcatNone();
    }
    for i := 0 to |writes|
      invariant fresh(w) && w.Valid() && w.decode == decode && w.stream == Concat(writes[..i])
      invariant (w.fed, Ok) == Outcome(decode, w.stream)
    {
      code := w.Write(writes[i]);
      ConcatMore(writes, i);
      if code != Ok {
        ConcatSplit(writes, i + 1);
        FailureIsFinal(decode, w.stream, Concat(writes[i + 1..]));
        return w.fed, code;
      }
    }
    assert writes[..|writes|] == writes;
    return w.fed, Ok;
  }

  lemma ConcatNone()
    ensures Concat([]) == []
  {
  }
}
