/** Skipping the gzip header (content_encoding.c, `check_gzip_header`; section 2.3 of RFC 1952). */
module GzipHeader {
  import opened Bytes

  const MAGIC_0: byte := 0x1f
  const MAGIC_1: byte := 0x8b
  const Z_DEFLATED: byte := 8
  const HEAD_CRC := 0x02
  const EXTRA_FIELD := 0x04
  const ORIG_NAME := 0x08
  const COMMENT := 0x10
  const RESERVED := 0x20   // the lowest of the reserved bits 5..7

  datatype Verdict = Good(len: nat) | Bad | Underflow

  predicate Flag(flags: byte, bit: nat)
    requires bit > 0
  {
    flags / bit % 2 == 1
  }

  function LittleEndian(low: byte, high: byte): nat {
    high as int * 256 + low as int
  }

  /** The position after the first NUL at or after `at`, if there is one. */
  function AfterNul(data: seq<byte>, at: nat): (r: Option<nat>)
    requires at <= |data|
    ensures r.Some? ==> at < r.value <= |data| && data[r.value - 1] == 0
    decreases |data| - at
  {
    if at == |data| then None
    else if data[at] == 0 then Some(at + 1)
    else AfterNul(data, at + 1)
  }

  /** The loop over a file name or comment. */
  method SkipString(data: seq<byte>, at: nat) returns (r: Option<nat>)
    requires at <= |data|
    ensures r == AfterNul(data, at)
  {
    var i := at;
    while i < |data| && data[i] != 0
      invariant at <= i <= |data| && AfterNul(data, at) == AfterNul(data, i)
    {
      i := i + 1;
    }
    r := if i == |data| then None else Some(i + 1);
  }

  method CheckGzipHeader(data: seq<byte>) returns (v: Verdict)
    ensures v == Check(data)
  {
    if |data| < 10 {
      return Underflow;
    }
    if data[0] != MAGIC_0 || data[1] != MAGIC_1 {
      return Bad;
    }
    var flags := data[3];
    if data[2] != Z_DEFLATED || flags >= RESERVED {
      return Bad;
    }
    var at: nat := 10;
    if Flag(flags, EXTRA_FIELD) {
      if |data| - at < 2 {
        return Underflow;
      }
      var extraLen := LittleEndian(data[at], data[at + 1]);
      if |data| - at < extraLen + 2 {
        return Underflow;
      }
      at := at + extraLen + 2;
    }
    if Flag(flags, ORIG_NAME) {
      var end := SkipString(data, at);
      if end.None? {
        return Underflow;
      }
      at := end.value;
    }
    if Flag(flags, COMMENT) {
      var end := SkipString(data, at);
      if end.None? {
        return Underflow;
      }
      at := end.value;
    }
    if Flag(flags, HEAD_CRC) {
      if |data| - at < 2 {
        return Underflow;
      }
      at := at + 2;
    }
    return Good(at);
  }

  // ---------- the verdict as a function ----------

  /** Where the extra field, the name, the comment and the header CRC end, each given where it starts. */
  function ExtraEnd(data: seq<byte>, at: nat): (r: Option<nat>)
    requires at <= |data|
    ensures r.Some? ==> at <= r.value <= |data|
  {
    if !Flag(FlagsOf(data), EXTRA_FIELD) then Some(at)
    else if |data| < at + 2 then None
    else
      var end := at + 2 + LittleEndian(data[at], data[at + 1]);
      if |data| < end then None else Some(end)
  }

  function StringEnd(data: seq<byte>, at: nat, bit: nat): (r: Option<nat>)
    requires at <= |data| && bit > 0
    ensures r.Some? ==> at <= r.value <= |data|
  {
    if Flag(FlagsOf(data), bit) then AfterNul(data, at) else Some(at)
  }

  function CrcEnd(data: seq<byte>, at: nat): (r: Option<nat>)
    requires at <= |data|
    ensures r.Some? ==> at <= r.value <= |data|
  {
    if !Flag(FlagsOf(data), HEAD_CRC) then Some(at)
    else if |data| < at + 2 then None
    else Some(at + 2)
  }

  function FlagsOf(data: seq<byte>): byte {
    if |data| < 4 then 0 else data[3]
  }

  predicate FixedPartOk(data: seq<byte>)
    requires |data| >= 10
  {
    data[0] == MAGIC_0 && data[1] == MAGIC_1 && data[2] == Z_DEFLATED && data[3] < RESERVED
  }

  function HeaderEnd(data: seq<byte>): (r: Option<nat>)
    requires |data| >= 10
    ensures r.Some? ==> 10 <= r.value <= |data|
  {
    var extra := ExtraEnd(data, 10);
    if extra.None? then None else
    var name := StringEnd(data, extra.value, ORIG_NAME);
    if name.None? then None else
    var comment := StringEnd(data, name.value, COMMENT);
    if comment.None? then None else
    CrcEnd(data, comment.value)
  }

  function Check(data: seq<byte>): (v: Verdict)
    ensures v.Good? ==> 10 <= v.len <= |data|
    ensures v.Bad? ==> |data| >= 10
  {
    if |data| < 10 then Underflow
    else if !FixedPartOk(data) then Bad
    else match HeaderEnd(data)
      case None => Underflow
      case Some(end) => Good(end)
  }

  // ---------- a verdict is final ----------

  lemma {:induction false} AfterNulExtends(data: seq<byte>, more: seq<byte>, at: nat)
    requires at <= |data| && AfterNul(data, at).Some?
    ensures AfterNul(data + more, at) == AfterNul(data, at)
    decreases |data| - at
  {
    assert (data + more)[at] == data[at];
    if data[at] != 0 {
      AfterNulExtends(data, more, at + 1);
    }
  }

  /** However much follows, a header once accepted keeps its length and a bad one stays bad. */
  lemma VerdictIsFinal(data: seq<byte>, more: seq<byte>)
    requires !Check(data).Underflow?
    ensures Check(data + more) == Check(data)
  {
    var all := data + more;
    assert forall i :: 0 <= i < |data| ==> all[i] == data[i];
    if Check(data).Good? {
      var extra := ExtraEnd(data, 10).value;
      if Flag(FlagsOf(data), ORIG_NAME) {
        AfterNulExtends(data, more, extra);
      }
      var name := StringEnd(data, extra, ORIG_NAME).value;
      if Flag(FlagsOf(data), COMMENT) {
        AfterNulExtends(data, more, name);
      }
    }
  }

  lemma {:induction false} AfterNulShrinks(data: seq<byte>, n: nat, at: nat)
    requires at <= n <= |data| && AfterNul(data, at).Some? && AfterNul(data, at).value <= n
    ensures AfterNul(data[..n], at) == AfterNul(data, at)
    decreases |data| - at
  {
    if data[at] != 0 {
      AfterNulShrinks(data, n, at + 1);
    }
  }

  /** An accepted header is accepted as soon as its own bytes are there. */
  lemma GoodNeedsNoMore(data: seq<byte>, n: nat)
    requires Check(data).Good? && Check(data).len <= n <= |data|
    ensures Check(data[..n]) == Check(data)
  {
    var extra := ExtraEnd(data, 10).value;
    if Flag(FlagsOf(data), ORIG_NAME) {
      AfterNulShrinks(data, n, extra);
    }
    var name := StringEnd(data, extra, ORIG_NAME).value;
    if Flag(FlagsOf(data), COMMENT) {
      AfterNulShrinks(data, n, name);
    }
  }

  /** So where earlier writes held too little, the header ends inside the latest one. */
  lemma HeaderEndsInLatest(before: seq<byte>, latest: seq<byte>)
    requires Check(before).Underflow? && Check(before + latest).Good?
    ensures |before| < Check(before + latest).len <= |before| + |latest|
  {
    if Check(before + latest).len <= |before| {
      assert (before + latest)[..|before|] == before;
      GoodNeedsNoMore(before + latest, |before|);
    }
  }

  // ---------- the grammar of RFC 1952 ----------

  /** A member header, part by part; a part is there exactly if its flag bit is set. */
  datatype Header = Header(
    text: bool, mtime: seq<byte>, xfl: byte, os: byte,
    extra: Option<seq<byte>>, name: Option<seq<byte>>, comment: Option<seq<byte>>, crc: Option<(byte, byte)>)

  predicate WellFormed(h: Header) {
    && |h.mtime| == 4
    && (h.extra.Some? ==> |h.extra.value| < 0x10000)
    && (h.name.Some? ==> 0 !in h.name.value)
    && (h.comment.Some? ==> 0 !in h.comment.value)
  }

  function FlagByte(h: Header): (flags: byte)
    ensures flags < RESERVED
    ensures Flag(flags, HEAD_CRC) == h.crc.Some? && Flag(flags, EXTRA_FIELD) == h.extra.Some?
    ensures Flag(flags, ORIG_NAME) == h.name.Some? && Flag(flags, COMMENT) == h.comment.Some?
  {
    (if h.text then 1 else 0) + (if h.crc.Some? then 2 else 0) + (if h.extra.Some? then 4 else 0)
    + (if h.name.Some? then 8 else 0) + (if h.comment.Some? then 16 else 0)
  }

  function FixedBytes(h: Header): seq<byte>
    requires WellFormed(h)
  {
    [MAGIC_0, MAGIC_1, Z_DEFLATED, FlagByte(h)] + h.mtime + [h.xfl, h.os]
  }

  function ExtraBytes(extra: Option<seq<byte>>): seq<byte>
    requires extra.Some? ==> |extra.value| < 0x10000
  {
    if extra.None? then [] else [|extra.value| % 256, |extra.value| / 256] + extra.value
  }

  function StringBytes(s: Option<seq<byte>>): seq<byte> {
    if s.None? then [] else s.value + [0]
  }

  function CrcBytes(crc: Option<(byte, byte)>): seq<byte> {
    if crc.None? then [] else [crc.value.0, crc.value.1]
  }

  function Encode(h: Header): seq<byte>
    requires WellFormed(h)
  {
    FixedBytes(h) + ExtraBytes(h.extra) + StringBytes(h.name) + StringBytes(h.comment) + CrcBytes(h.crc)
  }

  lemma {:induction false} AfterNulFinds(pre: seq<byte>, s: seq<byte>, post: seq<byte>)
    requires 0 !in s
    ensures AfterNul(pre + s + [0] + post, |pre|) == Some(|pre| + |s| + 1)
    decreases |s|
  {
    var all := pre + s + [0] + post;
    if s != [] {
      assert all[|pre|] == s[0] && s[0] in s;
      assert pre + [s[0]] + s[1..] + [0] + post == all;
      AfterNulFinds(pre + [s[0]], s[1..], post);
    } else {
      assert all[|pre|] == 0;
    }
  }

  lemma {:induction false} AfterNulSplits(data: seq<byte>, at: nat)
    requires at <= |data| && AfterNul(data, at).Some?
    ensures 0 !in data[at..AfterNul(data, at).value - 1]
    decreases |data| - at
  {
    if data[at] != 0 {
      AfterNulSplits(data, at + 1);
      var end := AfterNul(data, at).value - 1;
      assert data[at..end] == [data[at]] + data[at + 1..end];
    }
  }

  lemma ExtraEncoded(h: Header, post: seq<byte>)
    requires WellFormed(h)
    ensures ExtraEnd(FixedBytes(h) + ExtraBytes(h.extra) + post, 10) == Some(10 + |ExtraBytes(h.extra)|)
  {
    var f, e := FixedBytes(h), ExtraBytes(h.extra);
    var data := f + e + post;
    assert FlagsOf(data) == FlagByte(h);
    if h.extra.Some? {
      assert data[10] == e[0] && data[11] == e[1];
      assert |h.extra.value| == |h.extra.value| % 256 + 256 * (|h.extra.value| / 256);
    }
  }

  lemma StringEncoded(pre: seq<byte>, s: Option<seq<byte>>, post: seq<byte>, bit: nat)
    requires bit > 0 && (s.Some? ==> 0 !in s.value)
    requires Flag(FlagsOf(pre + StringBytes(s) + post), bit) == s.Some?
    ensures StringEnd(pre + StringBytes(s) + post, |pre|, bit) == Some(|pre + StringBytes(s)|)
  {
    if s.Some? {
      AfterNulFinds(pre, s.value, post);
      assert pre + s.value + [0] + post == pre + StringBytes(s) + post;
    }
  }

  lemma FixedPart(h: Header, data: seq<byte>)
    requires WellFormed(h) && FixedBytes(h) <= data
    ensures |data| >= 10 && FixedPartOk(data) && FlagsOf(data) == FlagByte(h)
  {
  }

  lemma Groupings(f: seq<byte>, e: seq<byte>, n: seq<byte>, c: seq<byte>, k: seq<byte>, r: seq<byte>)
    ensures f + e + n + c + k + r == f + e + (n + c + k + r)
    ensures f + e + n + c + k + r == (f + e) + n + (c + k + r)
    ensures f + e + n + c + k + r == (f + e + n) + c + (k + r)
  {
  }

  /** Every header the RFC allows is accepted at its own length, whatever follows it. */
  lemma AcceptsEncoded(h: Header, rest: seq<byte>)
    requires WellFormed(h)
    ensures Check(Encode(h) + rest) == Good(|Encode(h)|)
  {
    var f, e, n, c, k :=
      FixedBytes(h), ExtraBytes(h.extra), StringBytes(h.name), StringBytes(h.comment), CrcBytes(h.crc);
    var data := f + e + n + c + k + rest;
    FixedPart(h, data);
    Groupings(f, e, n, c, k, rest);
    ExtraEncoded(h, n + c + k + rest);
    StringEncoded(f + e, h.name, c + k + rest, ORIG_NAME);
    StringEncoded(f + e + n, h.comment, k + rest, COMMENT);
    assert CrcEnd(data, |f + e + n + c|) == Some(|f + e + n + c + k|);
    hide FixedBytes, ExtraBytes, StringBytes, CrcBytes, ExtraEnd, StringEnd, CrcEnd, FlagByte, Flag, FixedPartOk;
    assert HeaderEnd(data) == Some(|f + e + n + c + k|);
  }

  lemma ExtraDecoded(data: seq<byte>, end: nat)
    requires |data| >= 12 && end == 12 + LittleEndian(data[10], data[11]) <= |data|
    ensures end - 12 < 0x10000 && ExtraBytes(Some(data[12..end])) == data[10..end]
  {
    var n := LittleEndian(data[10], data[11]);
    assert n % 256 == data[10] && n / 256 == data[11];
    assert data[10..end] == [data[10], data[11]] + data[12..end];
  }

  lemma StringDecoded(data: seq<byte>, at: nat, end: nat)
    requires at <= |data| && AfterNul(data, at) == Some(end)
    ensures 0 !in data[at..end - 1] && StringBytes(Some(data[at..end - 1])) == data[at..end]
  {
    AfterNulSplits(data, at);
    assert data[at..end] == data[at..end - 1] + [data[end - 1]];
  }

  /** Where the parts of an accepted header end. */
  lemma Cuts(data: seq<byte>) returns (a: nat, b: nat, c: nat)
    requires Check(data).Good?
    ensures FixedPartOk(data) && 10 <= a <= b <= c <= Check(data).len <= |data|
    ensures if Flag(data[3], EXTRA_FIELD) then |data| >= 12 && a == 12 + LittleEndian(data[10], data[11]) else a == 10
    ensures if Flag(data[3], ORIG_NAME) then AfterNul(data, a) == Some(b) else b == a
    ensures if Flag(data[3], COMMENT) then AfterNul(data, b) == Some(c) else c == b
    ensures Check(data).len == c + if Flag(data[3], HEAD_CRC) then 2 else 0
  {
    a := ExtraEnd(data, 10).value;
    b := StringEnd(data, a, ORIG_NAME).value;
    c := StringEnd(data, b, COMMENT).value;
  }

  /** And nothing else is: an accepted header is one the RFC allows. */
  lemma AcceptsOnlyEncoded(data: seq<byte>) returns (h: Header)
    requires Check(data).Good?
    ensures WellFormed(h) && Encode(h) == data[..Check(data).len]
  {
    hide Check, Flag, AfterNul, FixedPartOk, FixedBytes, ExtraBytes, StringBytes, CrcBytes;
    var a, b, c := Cuts(data);
    var d := Check(data).len;
    var extra := ExtraPart(data, a);
    var name := StringPart(data, a, b, ORIG_NAME);
    var comment := StringPart(data, b, c, COMMENT);
    var crc := CrcPart(data, c, d);
    h := Header(Flag(data[3], 1), data[4..8], data[8], data[9], extra, name, comment, crc);
    FixedDecoded(data, h);
    FourCuts(data, a, b, c, d);
  }

  lemma ExtraPart(data: seq<byte>, a: nat) returns (extra: Option<seq<byte>>)
    requires 10 <= a <= |data|
    requires if Flag(data[3], EXTRA_FIELD) then |data| >= 12 && a == 12 + LittleEndian(data[10], data[11]) else a == 10
    ensures extra.Some? == Flag(data[3], EXTRA_FIELD) && (extra.Some? ==> |extra.value| < 0x10000)
    ensures ExtraBytes(extra) == data[10..a]
  {
    extra := None;
    if Flag(data[3], EXTRA_FIELD) {
      extra := Some(data[12..a]);
      ExtraDecoded(data, a);
    }
  }

  lemma StringPart(data: seq<byte>, at: nat, end: nat, bit: nat) returns (s: Option<seq<byte>>)
    requires 10 <= at <= end <= |data| && bit > 0
    requires if Flag(data[3], bit) then AfterNul(data, at) == Some(end) else end == at
    ensures s.Some? == Flag(data[3], bit) && StringBytes(s) == data[at..end] && (s.Some? ==> 0 !in s.value)
  {
    s := None;
    if Flag(data[3], bit) {
      s := Some(data[at..end - 1]);
      StringDecoded(data, at, end);
    }
  }

  lemma CrcPart(data: seq<byte>, c: nat, d: nat) returns (crc: Option<(byte, byte)>)
    requires 10 <= c <= d <= |data| && d == c + if Flag(data[3], HEAD_CRC) then 2 else 0
    ensures crc.Some? == Flag(data[3], HEAD_CRC) && CrcBytes(crc) == data[c..d]
  {
    crc := None;
    if Flag(data[3], HEAD_CRC) {
      crc := Some((data[c], data[c + 1]));
    }
  }

  lemma FixedDecoded(data: seq<byte>, h: Header)
    requires |data| >= 10 && FixedPartOk(data) && WellFormed(h)
    requires h.text == Flag(data[3], 1) && h.mtime == data[4..8] && h.xfl == data[8] && h.os == data[9]
    requires h.crc.Some? == Flag(data[3], HEAD_CRC) && h.extra.Some? == Flag(data[3], EXTRA_FIELD)
    requires h.name.Some? == Flag(data[3], ORIG_NAME) && h.comment.Some? == Flag(data[3], COMMENT)
    ensures FixedBytes(h) == data[..10]
  {
    FlagBits(data[3]);
  }

  lemma FourCuts(data: seq<byte>, a: nat, b: nat, c: nat, d: nat)
    requires 10 <= a <= b <= c <= d <= |data|
    ensures data[..10] + data[10..a] + data[a..b] + data[b..c] + data[c..d] == data[..d]
  {
  }

  lemma FlagBits(flags: byte)
    requires flags < RESERVED
    ensures flags ==
      (if Flag(flags, 1) then 1 else 0) + (if Flag(flags, 2) then 2 else 0) + (if Flag(flags, 4) then 4 else 0)
      + (if Flag(flags, 8) then 8 else 0) + (if Flag(flags, 16) then 16 else 0)
  {
  }
}
