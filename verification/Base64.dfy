/** Base64 (base64.c; sections 3 to 5 of RFC 4648). Shifts and masks on bytes are written as the
    quotients and remainders they are; text is the characters of a C string, without its NUL. */
module Base64 {
  import opened Bytes

  const UPPER: string := "ABCDEFGHIJKLMNOPQRSTUVWXYZ"
  const LOWER: string := "abcdefghijklmnopqrstuvwxyz"
  const DIGITS: string := "0123456789"

  // The padding character stands at offset 64; a NUL there means that no padding is written.
  const BASE64: string := UPPER + LOWER + DIGITS + "+/="
  const BASE64_URL: string := UPPER + LOWER + DIGITS + "-_\0"

  const BAD_SYMBOL := 255

  // Values of the characters from '+' to 'z'.
  const DECODE_TABLE: seq<int> :=
    [62, 255, 255, 255, 63]
    + [52, 53, 54, 55, 56, 57, 58, 59, 60, 61]
    + [255, 255, 255, 255, 255, 255, 255]
    + [0, 1, 2, 3, 4, 5, 6, 7, 8, 9, 10, 11, 12, 13, 14, 15, 16, 17, 18, 19, 20, 21, 22, 23, 24, 25]
    + [255, 255, 255, 255, 255, 255]
    + [26, 27, 28, 29, 30, 31, 32, 33, 34, 35, 36, 37, 38, 39, 40, 41, 42, 43, 44, 45, 46, 47, 48, 49, 50, 51]

  /** The 256-entry lookup of the decoder: the table laid over the codes from '+' on. */
  function Lookup(c: char): int {
    var k := c as int - '+' as int;
    if 0 <= k < |DECODE_TABLE| then DECODE_TABLE[k] else BAD_SYMBOL
  }

  /** The lookup is the inverse of the standard alphabet, and bad everywhere else. */
  lemma LookupRanges(c: char)
    ensures Lookup(c) ==
      if 'A' <= c <= 'Z' then c as int - 'A' as int
      else if 'a' <= c <= 'z' then c as int - 'a' as int + 26
      else if '0' <= c <= '9' then c as int - '0' as int + 52
      else if c == '+' then 62
      else if c == '/' then 63
      else BAD_SYMBOL
  {
    if 'A' <= c <= 'Z' {
      LookupUpper(c);
    } else if 'a' <= c <= 'z' {
      LookupLower(c);
    } else {
      LookupOther(c);
    }
  }

  lemma LookupUpper(c: char)
    requires 'A' <= c <= 'Z'
    ensures Lookup(c) == c as int - 'A' as int
  {
  }

  lemma LookupLower(c: char)
    requires 'a' <= c <= 'z'
    ensures Lookup(c) == c as int - 'a' as int + 26
  {
  }

  lemma LookupOther(c: char)
    requires !('A' <= c <= 'Z') && !('a' <= c <= 'z')
    ensures Lookup(c) ==
      if '0' <= c <= '9' then c as int - '0' as int + 52
      else if c == '+' then 62
      else if c == '/' then 63
      else BAD_SYMBOL
  {
  }

  lemma UpperRange(i: int)
    requires 0 <= i < 26
    ensures BASE64[i] as int == 'A' as int + i
  {
  }

  lemma LowerRange(i: int)
    requires 26 <= i < 52
    ensures BASE64[i] as int == 'a' as int + (i - 26)
  {
  }

  lemma OtherRange(i: int)
    requires 52 <= i < 64
    ensures BASE64[i] as int == if i < 62 then '0' as int + (i - 52) else if i == 62 then '+' as int else '/' as int
  {
  }

  lemma TableRanges(i: int)
    requires 0 <= i < 64
    ensures BASE64[i] as int ==
      if i < 26 then 'A' as int + i
      else if i < 52 then 'a' as int + (i - 26)
      else if i < 62 then '0' as int + (i - 52)
      else if i == 62 then '+' as int
      else '/' as int
  {
    if i < 26 {
      UpperRange(i);
    } else if i < 52 {
      LowerRange(i);
    } else {
      OtherRange(i);
    }
  }

  lemma LookupInverts(i: int)
    requires 0 <= i < 64
    ensures Lookup(BASE64[i]) == i && BASE64[i] != '='
  {
    TableRanges(i);
    LookupRanges(BASE64[i]);
    hide Lookup;
  }

  lemma TableInverts(c: char)
    requires Lookup(c) != BAD_SYMBOL
    ensures 0 <= Lookup(c) < 64 && BASE64[Lookup(c)] == c && c != '='
  {
    LookupRanges(c);
    hide Lookup;
    TableRanges(Lookup(c));
  }

  // ---------- encoding ----------

  /** The text for `data`: four symbols for each three bytes, padded at the end if the table says so. */
  function Encoded(table: string, data: seq<byte>): string
    requires |table| == 65
  {
    if |data| == 0 then ""
    else if |data| == 1 then
      [table[data[0] / 4], table[data[0] % 4 * 16]] + Pad(table, 2)
    else if |data| == 2 then
      [table[data[0] / 4], table[data[0] % 4 * 16 + data[1] / 16], table[data[1] % 16 * 4]] + Pad(table, 1)
    else
      Quantum(table, data[0], data[1], data[2]) + Encoded(table, data[3..])
  }

  function Quantum(table: string, a: byte, b: byte, c: byte): string
    requires |table| == 65
  {
    [table[a / 4], table[a % 4 * 16 + b / 16], table[b % 16 * 4 + c / 64], table[c % 64]]
  }

  function Pad(table: string, n: nat): string
    requires |table| == 65
  {
    if table[64] == '\0' then "" else seq(n, i => table[64])
  }

  lemma {:induction false} EncodedConcat(table: string, a: seq<byte>, b: seq<byte>, k: nat)
    requires |table| == 65 && |a| == 3 * k
    ensures Encoded(table, a + b) == Encoded(table, a) + Encoded(table, b)
    decreases k
  {
    if k == 0 {
      assert a + b == b;
    } else {
      EncodedConcat(table, a[3..], b, k - 1);
      assert (a + b)[3..] == a[3..] + b;
      Associate(Quantum(table, a[0], a[1], a[2]), Encoded(table, a[3..]), Encoded(table, b));
    }
  }

  /** The length is 4 * ceil(n / 3), which is the allocation less the NUL; without padding it is
      ceil(4 * n / 3). */
  lemma {:induction false} EncodedLength(table: string, data: seq<byte>)
    requires |table| == 65
    ensures |Encoded(table, data)| == if table[64] != '\0' then (|data| + 2) / 3 * 4 else (4 * |data| + 2) / 3
    decreases |data|
  {
    if |data| >= 3 {
      EncodedLength(table, data[3..]);
    }
  }

  /** How much of the input is encoded: `insize` bytes, or up to the NUL if that is 0. */
  function Input(buff: seq<byte>, insize: nat): seq<byte>
    requires insize <= |buff|
  {
    if insize > 0 then buff[..insize] else UpToNul(buff)
  }

  function UpToNul(buff: seq<byte>): seq<byte> {
    if buff == [] || buff[0] == 0 then [] else [buff[0]] + UpToNul(buff[1..])
  }

  method StringLength(buff: seq<byte>) returns (n: nat)
    requires 0 in buff
    ensures n <= |buff| && buff[..n] == UpToNul(buff)
  {
    n := 0;
    while buff[n] != 0
      invariant n < |buff| && 0 in buff[n..] && buff[..n] + UpToNul(buff[n..]) == UpToNul(buff)
      decreases |buff| - n
    {
      assert buff[n..] == [buff[n]] + buff[n + 1..] && buff[..n + 1] == buff[..n] + [buff[n]];
      Associate(buff[..n], [buff[n]], UpToNul(buff[n + 1..]));
      n := n + 1;
    }
  }

  /** The four symbols of a full quantum. */
  method PutQuantum(table: string, out: array<char>, o: nat, a: byte, b: byte, c: byte)
    requires |table| == 65 && o + 4 <= out.Length
    modifies out
    ensures out[..o + 4] == old(out[..o]) + Quantum(table, a, b, c)
  {
    out[o] := table[a / 4];
    out[o + 1] := table[a % 4 * 16 + b / 16];
    out[o + 2] := table[b % 16 * 4 + c / 64];
    out[o + 3] := table[c % 64];
  }

  /** The last one or two bytes. */
  method PutRest(table: string, out: array<char>, o: nat, rest: seq<byte>) returns (end: nat)
    requires |table| == 65 && 1 <= |rest| <= 2 && o + 4 <= out.Length
    modifies out
    ensures o <= end <= o + 4 && out[..end] == old(out[..o]) + Encoded(table, rest)
  {
    out[o] := table[rest[0] / 4];
    if |rest| == 1 {
      out[o + 1] := table[rest[0] % 4 * 16];
      end := o + 2;
      if table[64] != '\0' {
        out[o + 2] := table[64];
        out[o + 3] := table[64];
        end := o + 4;
      }
    } else {
      out[o + 1] := table[rest[0] % 4 * 16 + rest[1] / 16];
      out[o + 2] := table[rest[1] % 16 * 4];
      end := o + 3;
      if table[64] != '\0' {
        out[o + 3] := table[64];
        end := o + 4;
      }
    }
  }

  /** The loop over the full quantums: reads up to `i`, writes up to `o`. */
  method PutQuantums(table: string, out: array<char>, data: seq<byte>, quantums: nat)
    returns (i: nat, o: nat, ghost k: nat)
    requires |table| == 65 && |data| <= 3 * quantums && 4 * quantums < out.Length
    modifies out
    ensures i <= |data| < i + 3 && i == 3 * k && o == 4 * k
    ensures out[..o] == Encoded(table, data[..i])
  {
    hide Quantum;
    i, o, k := 0, 0, 0;
    while |data| - i >= 3
      invariant i == 3 * k <= |data| && o == 4 * k
      invariant out[..o] == Encoded(table, data[..i])
    {
      EncodedStep(table, data, k);
      hide Encoded;
      PutQuantum(table, out, o, data[i], data[i + 1], data[i + 2]);
      i, o, k := i + 3, o + 4, k + 1;
    }
  }

  /** How much of the buffer is encoded: a size of 0 stands for the length of the string. */
  method InputSize(buff: seq<byte>, insize: nat) returns (size: nat)
    requires insize <= |buff| && (insize == 0 ==> 0 in buff)
    ensures size <= |buff| && buff[..size] == Input(buff, insize)
  {
    size := insize;
    if size == 0 {
      size := StringLength(buff);
    }
  }

  /** `base64_encode`; every write stays within the allocation. */
  method Encode(table: string, buff: seq<byte>, insize: nat) returns (out: array<char>, outlen: nat)
    requires |table| == 65 && insize <= |buff| && (insize == 0 ==> 0 in buff)
    ensures fresh(out) && outlen < out.Length && out[outlen] == '\0'
    ensures out[..outlen] == Encoded(table, Input(buff, insize))
  {
    hide Input, Encoded;
    var size := InputSize(buff, insize);
    var data := buff[..size];
    var quantums: nat := (size + 2) / 3;
    out := new char[quantums * 4 + 1];
    var i, o, k := PutQuantums(table, out, data, quantums);
    TailOfEncoded(table, data, k);
    assert data[..size] == data;
    if i < size {
      o := PutRest(table, out, o, data[i..]);
    }
    out[o] := '\0';
    outlen := o;
  }

  lemma TailOfEncoded(table: string, data: seq<byte>, k: nat)
    requires |table| == 65 && 3 * k <= |data|
    ensures Encoded(table, data) == Encoded(table, data[..3 * k]) + Encoded(table, data[3 * k..])
  {
    hide Encoded;
    assert data == data[..3 * k] + data[3 * k..];
    EncodedConcat(table, data[..3 * k], data[3 * k..], k);
  }

  lemma EncodedStep(table: string, data: seq<byte>, k: nat)
    requires |table| == 65 && 3 * k + 3 <= |data|
    ensures var i := 3 * k;
      Encoded(table, data[..i + 3]) == Encoded(table, data[..i]) + Quantum(table, data[i], data[i + 1], data[i + 2])
  {
    var i := 3 * k;
    var q := [data[i], data[i + 1], data[i + 2]];
    assert data[..i + 3] == data[..i] + q;
    EncodedConcat(table, data[..i], q, k);
    assert q[3..] == [];
  }

  // ---------- decoding ----------

  /** Three bytes from four symbols of the alphabet. */
  function Triple(x: int): seq<byte>
    requires 0 <= x < 0x1000000
  {
    [x / 0x10000 % 256, x / 0x100 % 256, x % 256]
  }

  predicate AllGood(s: string) {
    forall i :: 0 <= i < |s| ==> Lookup(s[i]) != BAD_SYMBOL
  }

  /** The 24 bits of a quantum; a padding character counts as zero bits. */
  function Bits(q: string): (x: int)
    requires |q| == 4
    ensures 0 <= x < 0x1000000
  {
    ((Digit(q[0]) * 64 + Digit(q[1])) * 64 + Digit(q[2])) * 64 + Digit(q[3])
  }

  function Digit(c: char): (d: int)
    ensures 0 <= d < 64
  {
    if Lookup(c) == BAD_SYMBOL then 0
    else
      TableInverts(c);
      Lookup(c)
  }

  /** The bytes of quantums without padding. */
  function Full(s: string): Option<seq<byte>> {
    if s == "" then Some([])
    else if |s| < 4 || !AllGood(s[..4]) || Full(s[4..]).None? then None
    else Some(Triple(Bits(s[..4])) + Full(s[4..]).value)
  }

  /** The number of padding characters at the end, counting up to three. */
  function Padding(s: string): nat
    requires |s| >= 4
  {
    var n := |s|;
    if s[n - 1] != '=' then 0 else if s[n - 2] != '=' then 1 else if s[n - 3] != '=' then 2 else 3
  }

  /** The bytes of the last, padded quantum: every symbol but the padding must be good. */
  function Last(q: string, padding: nat): Option<seq<byte>>
    requires |q| == 4 && 1 <= padding <= 2
  {
    if !AllGood(q[..4 - padding]) then None
    else Some(Triple(Bits(q))[..3 - padding])
  }

  function Decoded(s: string): Option<seq<byte>> {
    if s == "" || |s| % 4 != 0 || Padding(s) > 2 then None
    else if Padding(s) == 0 then Full(s)
    else
      var full, last := Full(s[..|s| - 4]), Last(s[|s| - 4..], Padding(s));
      if full.None? || last.None? then None else Some(full.value + last.value)
  }

  /** The bits of the first `j` symbols. */
  function BitsTo(q: string, j: nat): (x: int)
    requires j <= |q| == 4
    ensures j == 4 ==> x == Bits(q)
    ensures 0 <= x && (j <= 1 ==> x < 64) && (j <= 2 ==> x < 0x1000) && (j <= 3 ==> x < 0x40000) && x < 0x1000000
  {
    if j == 0 then 0
    else if j == 1 then Digit(q[0])
    else if j == 2 then Digit(q[0]) * 64 + Digit(q[1])
    else if j == 3 then (Digit(q[0]) * 64 + Digit(q[1])) * 64 + Digit(q[2])
    else Bits(q)
  }

  lemma NoBits(q: string)
    requires |q| == 4
    ensures BitsTo(q, 0) == 0 && BitsTo(q, 4) == Bits(q)
  {
  }

  lemma NextBits(q: string, j: nat)
    requires j < |q| == 4
    ensures BitsTo(q, j + 1) == BitsTo(q, j) * 64 + Digit(q[j])
    ensures Lookup(q[j]) != BAD_SYMBOL ==> q[j] != '=' && Digit(q[j]) == Lookup(q[j])
    ensures q[j] == '=' ==> Digit(q[j]) == 0
  {
    PadIsBad();
    hide Lookup;
  }

  /** The inner loop of the decoder: four symbols of the alphabet. */
  method ReadQuantum(q: string) returns (x: Option<int>)
    requires |q| == 4
    ensures x == if AllGood(q) then Some(Bits(q)) else None
  {
    hide Lookup, Digit, Bits;
    var acc := 0;
    for j := 0 to 4
      invariant AllGood(q[..j]) && acc == BitsTo(q, j)
    {
      var val := Lookup(q[j]);
      if val == BAD_SYMBOL {
        return None;
      }
      assert q[..j + 1] == q[..j] + [q[j]];
      NextBits(q, j);
      acc := acc * 64 + val;
    }
    assert q[..4] == q;
    return Some(acc);
  }

  function CountPad(s: string): nat {
    if s == "" then 0 else CountPad(s[..|s| - 1]) + if s[|s| - 1] == '=' then 1 else 0
  }

  /** The loop over the padded quantum: padding characters may stand anywhere, but no more of them than
      were counted at the end. */
  method ReadPadded(q: string, padding: nat) returns (x: Option<int>)
    requires |q| == 4 && 1 <= padding <= 2
    requires q[3] == '=' && (padding == 2 ==> q[2] == '=')
    ensures x == if AllGood(q[..4 - padding]) then Some(Bits(q)) else None
  {
    hide Lookup, Digit, Bits, BitsTo;
    NoBits(q);
    var acc, padc := 0, 0;
    for j := 0 to 4
      invariant forall i :: 0 <= i < j ==> q[i] == '=' || Lookup(q[i]) != BAD_SYMBOL
      invariant acc == BitsTo(q, j) && padc <= padding
      invariant padc == CountPad(q[..j])
    {
      assert q[..j + 1][..j] == q[..j];
      NextBits(q, j);
      if q[j] == '=' {
        acc := acc * 64;
        padc := padc + 1;
        if padc > padding {
          TooMuchPadding(q, padding, j);
          return None;
        }
      } else {
        var val := Lookup(q[j]);
        if val == BAD_SYMBOL {
          assert j < 4 - padding && q[..4 - padding][j] == q[j];
          return None;
        }
        acc := acc * 64 + val;
      }
    }
    EnoughPadding(q, padding);
    return Some(acc);
  }

  /** More padding characters than at the end: one of them is further in front. */
  lemma TooMuchPadding(q: string, padding: nat, j: nat)
    requires |q| == 4 && 1 <= padding <= 2 && j < 4 && CountPad(q[..j + 1]) > padding
    ensures !AllGood(q[..4 - padding])
  {
    LookupRanges('=');
    hide Lookup;
    CountFour(q);
    assert CountPad(q[..j + 1]) <= CountPad(q[..4]);
    assert q[..4 - padding][0] == q[0] && q[..4 - padding][1] == q[1];
    assert padding == 1 ==> q[..4 - padding][2] == q[2];
  }

  lemma EnoughPadding(q: string, padding: nat)
    requires |q| == 4 && 1 <= padding <= 2 && q[3] == '='
    requires (padding == 2 ==> q[2] == '=') && CountPad(q[..4]) <= padding
    requires forall i :: 0 <= i < 4 ==> q[i] == '=' || Lookup(q[i]) != BAD_SYMBOL
    ensures AllGood(q[..4 - padding])
  {
    CountFour(q);
  }

  lemma CountFour(q: string)
    requires |q| == 4
    ensures CountPad(q[..0]) == 0
    ensures CountPad(q[..1]) == if q[0] == '=' then 1 else 0
    ensures CountPad(q[..2]) == CountPad(q[..1]) + if q[1] == '=' then 1 else 0
    ensures CountPad(q[..3]) == CountPad(q[..2]) + if q[2] == '=' then 1 else 0
    ensures CountPad(q[..4]) == CountPad(q[..3]) + if q[3] == '=' then 1 else 0
  {
    assert q[..1][..0] == q[..0] && q[..2][..1] == q[..1] && q[..3][..2] == q[..2] && q[..4][..3] == q[..3];
  }

  lemma {:induction false} FullConcat(a: string, b: string, k: nat)
    requires |a| == 4 * k
    ensures Full(a + b) == if Full(a).None? || Full(b).None? then None else Some(Full(a).value + Full(b).value)
    decreases k
  {
    hide Bits, AllGood;
    if k == 0 {
      assert a + b == b;
      assert Full(b).Some? ==> [] + Full(b).value == Full(b).value;
    } else {
      assert (a + b)[..4] == a[..4] && (a + b)[4..] == a[4..] + b;
      FullConcat(a[4..], b, k - 1);
      if Full(a).Some? && Full(b).Some? {
        Associate(Triple(Bits(a[..4])), Full(a[4..]).value, Full(b).value);
      }
    }
  }

  lemma FullOne(q: string)
    requires |q| == 4
    ensures Full(q) == if AllGood(q) then Some(Triple(Bits(q))) else None
  {
    hide Bits, AllGood, Triple;
    assert q[..4] == q && q[4..] == "";
    assert Full("") == Some([]);
    assert Triple(Bits(q)) + [] == Triple(Bits(q));
  }

  /** The three bytes of a full quantum. */
  method PutTriple(out: array<byte>, o: nat, x: int)
    requires o + 3 <= out.Length && 0 <= x < 0x1000000
    modifies out
    ensures out[..o + 3] == old(out[..o]) + Triple(x)
  {
    out[o + 2] := x % 256;
    out[o + 1] := x / 0x100 % 256;
    out[o] := x / 0x10000 % 256;
  }

  /** Decodes quantum `i`, behind the bytes of those in front of it. */
  method DecodeOne(s: string, i: nat, end: nat, out: array<byte>) returns (ok: bool)
    requires 4 * i + 4 <= end <= |s| && 3 * i + 3 <= out.Length
    requires Full(s[..4 * i]).Some? && out[..3 * i] == Full(s[..4 * i]).value
    modifies out
    ensures !ok ==> Full(s[..end]).None?
    ensures ok ==> Full(s[..4 * i + 4]).Some? && out[..3 * i + 3] == Full(s[..4 * i + 4]).value
  {
    hide Full, Bits, AllGood, Triple;
    var x := ReadQuantum(s[4 * i..4 * i + 4]);
    FullStep(s, i, end);
    if x.None? {
      return false;
    }
    PutTriple(out, 3 * i, x.value);
    return true;
  }

  /** Decodes the full quantums; `k` of them in front of `s`. */
  method DecodeQuantums(s: string, k: nat, out: array<byte>) returns (ok: bool)
    requires 4 * k <= |s| && 3 * k <= out.Length
    modifies out
    ensures ok == Full(s[..4 * k]).Some?
    ensures ok ==> out[..3 * k] == Full(s[..4 * k]).value
  {
    NoQuantums(s);
    hide Full;
    for i := 0 to k
      invariant Full(s[..4 * i]).Some? && out[..3 * i] == Full(s[..4 * i]).value
    {
      ok := DecodeOne(s, i, 4 * k, out);
      if !ok {
        return;
      }
    }
    return true;
  }

  lemma NoQuantums(s: string)
    ensures s[..0] == "" && Full("") == Some([])
  {
  }

  lemma FullStep(s: string, i: nat, end: nat)
    requires 4 * i + 4 <= end <= |s|
    ensures var at := 4 * i; var q, a := s[at..at + 4], Full(s[..at]);
      && Full(s[..at + 4]) == (if a.None? || !AllGood(q) then None else Some(a.value + Triple(Bits(q))))
      && (!AllGood(q) ==> Full(s[..end]).None?)
  {
    hide Full, Bits, AllGood, Triple;
    var at := 4 * i;
    var q := s[at..at + 4];
    assert s[..at + 4] == s[..at] + q;
    FullConcat(s[..at], q, i);
    FullOne(q);
    assert s[..end] == s[..at + 4] + s[at + 4..end];
    FullConcat(s[..at + 4], s[at + 4..end], i + 1);
  }

  /** The one or two bytes of the padded quantum. */
  method PutLast(out: array<byte>, pos: nat, x: int, padding: nat)
    requires 1 <= padding <= 2 && pos + 3 - padding <= out.Length && 0 <= x < 0x1000000
    modifies out
    ensures out[..pos + 3 - padding] == old(out[..pos]) + Triple(x)[..3 - padding]
  {
    if padding == 1 {
      out[pos + 1] := x / 0x100 % 256;
    }
    out[pos] := x / 0x10000 % 256;
  }

  /** Decodes the padded quantum behind `k` full ones. */
  method DecodeLast(src: string, k: nat, out: array<byte>, padding: nat) returns (ok: bool)
    requires |src| == 4 * k + 4 && 1 <= padding <= 2 && padding == Padding(src) && 3 * k + 3 - padding <= out.Length
    modifies out
    ensures var last := Last(src[4 * k..], padding);
      && ok == last.Some?
      && (ok ==> out[..3 * k + 3 - padding] == old(out[..3 * k]) + last.value)
  {
    hide Full, Bits, AllGood, Triple;
    var q := src[4 * k..];
    var x := ReadPadded(q, padding);
    if x.None? {
      return false;
    }
    PutLast(out, 3 * k, x.value, padding);
    return true;
  }

  /** The loop over the padding characters, which gives up at the third. */
  method CountPadding(src: string) returns (padding: nat)
    requires |src| >= 4
    ensures padding == Padding(src)
  {
    var n := |src|;
    padding := 0;
    while src[n - 1 - padding] == '='
      invariant padding <= 2 && forall i :: n - padding <= i < n ==> src[i] == '='
      decreases 2 - padding
    {
      padding := padding + 1;
      if padding > 2 {
        return;
      }
    }
  }

  /** `Curl_base64_decode`: null stands for CURLE_BAD_CONTENT_ENCODING. */
  method Decode(src: string) returns (out: array?<byte>, outlen: nat)
    ensures out == null <==> Decoded(src).None?
    ensures out != null ==> fresh(out) && outlen < out.Length && out[outlen] == 0 && out[..outlen] == Decoded(src).value
  {
    hide Full, Last, Padding;
    var n := |src|;
    if n == 0 || n % 4 != 0 {
      return null, 0;
    }
    var padding := CountPadding(src);
    if padding > 2 {
      return null, 0;
    }
    var numQuantums: nat := n / 4;
    var fullQuantums := numQuantums - if padding > 0 then 1 else 0;
    outlen := numQuantums * 3 - padding;
    var newstr := new byte[outlen + 1];
    var ok := DecodeQuantums(src, fullQuantums, newstr);
    assert padding == 0 ==> src[..4 * fullQuantums] == src;
    if !ok {
      return null, 0;
    }
    if padding > 0 {
      ok := DecodeLast(src, fullQuantums, newstr, padding);
      if !ok {
        return null, 0;
      }
    }
    newstr[outlen] := 0;
    return newstr, outlen;
  }

  // ---------- the two together ----------

  /** A table the decoder can read back. */
  ghost predicate Readable(table: string) {
    |table| == 65 && table[64] == '=' && forall i :: 0 <= i < 64 ==> Digit(table[i]) == i && Lookup(table[i]) == i
  }

  lemma StandardIsReadable()
    ensures Readable(BASE64)
  {
    forall i | 0 <= i < 64
      ensures Digit(BASE64[i]) == i && Lookup(BASE64[i]) == i
    {
      LookupInverts(i);
    }
  }

  lemma PadIsBad()
    ensures Lookup('=') == BAD_SYMBOL && Digit('=') == 0
  {
  }

  /** All but the last quantum is decoded without regard to the padding. */
  lemma DecodedSplit(q: string, rest: string)
    requires |q| == 4 && rest != "" && |rest| % 4 == 0
    ensures Decoded(q + rest) == if !AllGood(q) || Decoded(rest).None? then None
      else Some(Triple(Bits(q)) + Decoded(rest).value)
  {
    hide AllGood, Bits, Triple, Padding, Full, Last;
    PaddingSplit(q, rest);
    if Padding(rest) == 0 {
      FullOne(q);
      FullConcat(q, rest, 1);
    } else if Padding(rest) <= 2 {
      PaddedSplit(q, rest);
    }
  }

  lemma PaddingSplit(q: string, rest: string)
    requires |q| == 4 && rest != "" && |rest| % 4 == 0
    ensures Padding(q + rest) == Padding(rest) && |q + rest| % 4 == 0
  {
  }

  lemma PaddedSplit(q: string, rest: string)
    requires |q| == 4 && rest != "" && |rest| % 4 == 0 && 1 <= Padding(rest) <= 2
    ensures Decoded(q + rest) == if !AllGood(q) || Decoded(rest).None? then None
      else Some(Triple(Bits(q)) + Decoded(rest).value)
  {
    hide AllGood, Bits, Triple, Padding, Full, Last;
    PaddingSplit(q, rest);
    LastSplit(q, rest);
    var front, last := Full(rest[..|rest| - 4]), Last(rest[|rest| - 4..], Padding(rest));
    if AllGood(q) && front.Some? && last.Some? {
      Associate(Triple(Bits(q)), front.value, last.value);
    }
  }

  lemma LastSplit(q: string, rest: string)
    requires |q| == 4 && rest != "" && |rest| % 4 == 0
    ensures var n := |rest| - 4; var s := q + rest;
      && s[n + 4..] == rest[n..]
      && Full(s[..n + 4]) == if !AllGood(q) || Full(rest[..n]).None? then None
        else Some(Triple(Bits(q)) + Full(rest[..n]).value)
  {
    hide AllGood, Bits, Triple, Full;
    FullOne(q);
    var n, s := |rest| - 4, q + rest;
    assert s[..n + 4] == q + rest[..n] && s[n + 4..] == rest[n..];
    FullConcat(q, rest[..n], 1);
  }

  lemma DecodedQuantum(q: string)
    requires |q| == 4
    ensures Decoded(q) == if Padding(q) > 2 || !AllGood(q[..4 - Padding(q)]) then None
      else Some(Triple(Bits(q))[..3 - Padding(q)])
  {
    FullOne(q);
    assert q[..4] == q && q[..0] == "" && q[0..] == q;
    assert Full("") == Some([]);
    hide AllGood, Bits, Triple, Full, Padding;
    assert Triple(Bits(q))[..3] == Triple(Bits(q));
    assert Last(q, 1).Some? ==> [] + Last(q, 1).value == Last(q, 1).value;
    assert Last(q, 2).Some? ==> [] + Last(q, 2).value == Last(q, 2).value;
  }

  lemma ThreeBytes(a: int, b: int, c: int)
    requires 0 <= a < 256 && 0 <= b < 256 && 0 <= c < 256
    ensures var x := a * 0x10000 + b * 0x100 + c;
      0 <= x < 0x1000000 && x / 0x10000 % 256 == a && x / 0x100 % 256 == b && x % 256 == c
  {
    var x := a * 0x10000 + b * 0x100 + c;
    assert x / 0x10000 == a;
    assert x / 0x100 == a * 256 + b;
  }

  /** The bits of a quantum are the three bytes. */
  lemma BitsOfBytes(a: byte, b: byte, c: byte)
    ensures (((a / 4) * 64 + (a % 4 * 16 + b / 16)) * 64 + (b % 16 * 4 + c / 64)) * 64 + c % 64 ==
      a * 0x10000 + b * 0x100 + c
    ensures Triple(a * 0x10000 + b * 0x100 + c) == [a, b, c]
  {
    ThreeBytes(a, b, c);
    var ah, al, bh, bl, ch, cl := a / 4, a % 4, b / 16, b % 16, c / 64, c % 64;
    assert a == 4 * ah + al && b == 16 * bh + bl && c == 64 * ch + cl;
  }

  /** A quantum of the encoder, read back. */
  lemma QuantumBack(table: string, a: byte, b: byte, c: byte)
    requires Readable(table)
    ensures var q := Quantum(table, a, b, c); AllGood(q) && Triple(Bits(q)) == [a, b, c]
  {
    hide Lookup, Digit, Triple;
    BitsOfBytes(a, b, c);
  }

  lemma TwoBytesBack(table: string, a: byte, b: byte)
    requires Readable(table)
    ensures |table| == 65 && |Encoded(table, [a, b])| == 4 && Decoded(Encoded(table, [a, b])) == Some([a, b])
  {
    hide Readable, Encoded, Decoded, Triple, Padding, AllGood, Bits;
    var q := TwoSymbols(table, a, b);
    BitsOfBytes(a, b, 0);
    DecodedQuantum(q);
    assert [a, b, 0][..2] == [a, b];
  }

  lemma TwoSymbols(table: string, a: byte, b: byte) returns (q: string)
    requires Readable(table)
    ensures |q| == 4 && |table| == 65 && Encoded(table, [a, b]) == q
    ensures Bits(q) == a * 0x10000 + b * 0x100 && Padding(q) == 1 && AllGood(q[..3])
  {
    hide Lookup, Digit, Triple, Encoded;
    q := [table[a / 4], table[a % 4 * 16 + b / 16], table[b % 16 * 4], '='];
    TextOfTwo(table, a, b);
    PadIsBad();
    BitsOfBytes(a, b, 0);
  }

  lemma OneByteBack(table: string, a: byte)
    requires Readable(table)
    ensures |table| == 65 && |Encoded(table, [a])| == 4 && Decoded(Encoded(table, [a])) == Some([a])
  {
    hide Readable, Encoded, Decoded, Triple, Padding, AllGood, Bits;
    var q := OneSymbol(table, a);
    BitsOfBytes(a, 0, 0);
    DecodedQuantum(q);
    assert [a, 0, 0][..1] == [a];
  }

  lemma OneSymbol(table: string, a: byte) returns (q: string)
    requires Readable(table)
    ensures |q| == 4 && |table| == 65 && Encoded(table, [a]) == q
    ensures Bits(q) == a * 0x10000 && Padding(q) == 2 && AllGood(q[..2])
  {
    hide Lookup, Digit, Triple, Encoded;
    q := [table[a / 4], table[a % 4 * 16], '=', '='];
    TextOfOne(table, a);
    PadIsBad();
    BitsOfBytes(a, 0, 0);
  }

  lemma QuantumAlone(q: string)
    requires |q| == 4 && AllGood(q)
    ensures q + "" == q && Decoded(q + "") == Some(Triple(Bits(q)))
  {
    assert q + "" == q;
    PadIsBad();
    hide Bits, Triple, Lookup, Decoded, Full;
    DecodedQuantum(q);
    assert q[..4] == q;
    assert Triple(Bits(q))[..3] == Triple(Bits(q));
  }

  lemma {:induction false} ReadsBack(table: string, data: seq<byte>)
    requires Readable(table) && data != []
    ensures Decoded(Encoded(table, data)) == Some(data)
    decreases |data|
  {
    assert |table| == 65 && table[64] != '\0';
    hide Readable, Decoded, AllGood, Bits, Triple, Quantum;
    if |data| == 1 {
      OneByteBack(table, data[0]);
      assert data == [data[0]];
    } else if |data| == 2 {
      TwoBytesBack(table, data[0], data[1]);
      assert data == [data[0], data[1]];
    } else {
      var q, rest := Quantum(table, data[0], data[1], data[2]), data[3..];
      QuantumBack(table, data[0], data[1], data[2]);
      assert data == [data[0], data[1], data[2]] + rest;
      if rest == [] {
        QuantumAlone(q);
      } else {
        PaddedLength(table, rest);
        ReadsBack(table, rest);
        DecodedSplit(q, Encoded(table, rest));
      }
    }
  }

  lemma Fours(k: nat)
    ensures k * 4 % 4 == 0
  {
  }

  lemma PaddedLength(table: string, data: seq<byte>)
    requires |table| == 65 && table[64] != '\0' && data != []
    ensures Encoded(table, data) != "" && |Encoded(table, data)| % 4 == 0
  {
    hide Encoded;
    EncodedLength(table, data);
    Fours((|data| + 2) / 3);
  }

  /** Decoding what the encoder wrote gives the data back, for all data but the empty: that encodes to
      the empty string, which the decoder refuses. */
  lemma RoundTrip(data: seq<byte>)
    ensures Decoded(Encoded(BASE64, data)) == if data == [] then None else Some(data)
  {
    if data != [] {
      StandardIsReadable();
      ReadsBack(BASE64, data);
    }
  }

  /** The strings the decoder accepts: not empty, whole quantums, symbols of the alphabet but for at most
      two padding characters at the end. */
  ghost predicate Acceptable(s: string) {
    s != "" && |s| % 4 == 0
    && (AllGood(s) || PaddedBy(s, 1) || PaddedBy(s, 2))
  }

  ghost predicate PaddedBy(s: string, p: nat)
    requires p <= |s|
  {
    AllGood(s[..|s| - p]) && forall i :: |s| - p <= i < |s| ==> s[i] == '='
  }

  lemma {:induction false} FullAccepts(s: string, k: nat)
    requires |s| == 4 * k
    ensures Full(s).Some? <==> AllGood(s)
    decreases k
  {
    hide Lookup, Triple, Bits;
    if k > 0 {
      FullAccepts(s[4..], k - 1);
      assert forall i :: 0 <= i < |s| - 4 ==> s[4..][i] == s[i + 4];
      assert forall i :: 4 <= i < |s| ==> s[i] == s[4..][i - 4];
    }
  }

  lemma AcceptsExactly(s: string)
    ensures Decoded(s).Some? <==> Acceptable(s)
  {
    if s != "" && |s| % 4 == 0 {
      WhichPadding(s);
      var p := Padding(s);
      if p == 0 {
        FullAccepts(s, |s| / 4);
      } else if p <= 2 {
        AcceptsPadded(s, p);
      }
      hide Padding, Full, Last, AllGood, PaddedBy;
    }
  }

  /** Each kind of acceptable string ends in its own number of padding characters. */
  lemma WhichPadding(s: string)
    requires |s| >= 4
    ensures AllGood(s) ==> Padding(s) == 0
    ensures (PaddedBy(s, 1) ==> Padding(s) == 1) && (PaddedBy(s, 2) ==> Padding(s) == 2)
  {
    hide Lookup;
    PadIsBad();
    var n := |s|;
    assert s[..n - 1][n - 2] == s[n - 2] && s[..n - 2][n - 3] == s[n - 3];
  }

  lemma AcceptsPadded(s: string, p: nat)
    requires |s| >= 4 && |s| % 4 == 0 && p == Padding(s) && 1 <= p <= 2
    ensures Decoded(s).Some? <==> PaddedBy(s, p)
  {
    hide Lookup, Full, Triple, Bits, AllGood;
    FullAccepts(s[..|s| - 4], |s| / 4 - 1);
    GoodSplit(s, |s| - 4, |s| - p);
  }

  lemma GoodSplit(s: string, a: nat, b: nat)
    requires a <= b <= |s|
    ensures AllGood(s[..b]) <==> AllGood(s[..a]) && AllGood(s[a..][..b - a])
  {
    hide Lookup;
    assert s[..b] == s[..a] + s[a..][..b - a];
    assert forall i :: a <= i < b ==> s[..b][i] == s[a..][..b - a][i - a];
  }

  /** The bits of the last symbol that no byte uses are zero. */
  predicate UnusedBitsZero(s: string)
    requires |s| >= 4
  {
    var n := |s|;
    match Padding(s)
    case 1 => Digit(s[n - 2]) % 4 == 0
    case 2 => Digit(s[n - 3]) % 16 == 0
    case _ => true
  }

  lemma SymbolsOfBits(s0: int, s1: int, s2: int, s3: int)
    requires 0 <= s0 < 64 && 0 <= s1 < 64 && 0 <= s2 < 64 && 0 <= s3 < 64
    ensures 0 <= ((s0 * 64 + s1) * 64 + s2) * 64 + s3 < 0x1000000
    ensures Triple(((s0 * 64 + s1) * 64 + s2) * 64 + s3) == [s0 * 4 + s1 / 16, s1 % 16 * 16 + s2 / 4, s2 % 4 * 64 + s3]
  {
    var h1, l1, h2, l2 := s1 / 16, s1 % 16, s2 / 4, s2 % 4;
    assert s1 == 16 * h1 + l1 && s2 == 4 * h2 + l2;
    ThreeBytes(s0 * 4 + h1, l1 * 16 + h2, l2 * 64 + s3);
  }

  /** The symbols the encoder writes for the three bytes of four symbols. */
  lemma QuantumAgain(table: string, q: string)
    requires Readable(table) && |q| == 4
    ensures var d := Triple(Bits(q));
      Quantum(table, d[0], d[1], d[2]) ==
        [table[Digit(q[0])], table[Digit(q[1])], table[Digit(q[2])], table[Digit(q[3])]]
  {
    hide Lookup, Digit, Triple, Readable;
    var s0, s1, s2, s3 := Digit(q[0]), Digit(q[1]), Digit(q[2]), Digit(q[3]);
    SymbolsOfBits(s0, s1, s2, s3);
    Recombine(s0, s1, s2, s3);
  }

  lemma Recombine(s0: int, s1: int, s2: int, s3: int)
    requires 0 <= s0 < 64 && 0 <= s1 < 64 && 0 <= s2 < 64 && 0 <= s3 < 64
    ensures var a, b, c := s0 * 4 + s1 / 16, s1 % 16 * 16 + s2 / 4, s2 % 4 * 64 + s3;
      && 0 <= a < 256 && 0 <= b < 256 && 0 <= c < 256
      && a / 4 == s0 && a % 4 * 16 + b / 16 == s1 && b % 16 * 4 + c / 64 == s2 && c % 64 == s3
      && a % 4 * 16 == s1 / 16 * 16 && b % 16 * 4 == s2 / 4 * 4
  {
    var h1, l1, h2, l2 := s1 / 16, s1 % 16, s2 / 4, s2 % 4;
    assert s1 == 16 * h1 + l1 && s2 == 4 * h2 + l2;
    assert (s0 * 4 + h1) / 4 == s0 && (s0 * 4 + h1) % 4 == h1;
    assert (l1 * 16 + h2) / 16 == l1 && (l1 * 16 + h2) % 16 == h2;
    assert (l2 * 64 + s3) / 64 == l2 && (l2 * 64 + s3) % 64 == s3;
  }

  /** A readable table that has a symbol for every character the decoder takes. */
  ghost predicate Inverse(table: string) {
    Readable(table) && forall c :: Lookup(c) != BAD_SYMBOL ==> table[Digit(c)] == c
  }

  lemma StandardIsInverse()
    ensures Inverse(BASE64)
  {
    StandardIsReadable();
    forall c | Lookup(c) != BAD_SYMBOL
      ensures BASE64[Digit(c)] == c
    {
      TableInverts(c);
    }
  }

  lemma SymbolIs(table: string, c: char, i: int)
    requires Inverse(table) && 0 <= i < 64 && Lookup(c) != BAD_SYMBOL
    ensures |table| == 65 && (table[i] == c <==> i == Digit(c))
  {
    hide Lookup;
  }

  lemma QuantumReencodes(table: string, q: string)
    requires Inverse(table) && |q| == 4 && AllGood(q)
    ensures Encoded(table, Triple(Bits(q))) == q
  {
    QuantumAgain(table, q);
    var d := Triple(Bits(q));
    assert d[3..] == [] && Quantum(table, d[0], d[1], d[2]) + "" == Quantum(table, d[0], d[1], d[2]);
    hide Lookup, Digit, Triple, Quantum, Bits;
    assert Encoded(table, d) == Quantum(table, d[0], d[1], d[2]);
  }

  /** One padding character: the low two bits of the third symbol are dropped. */
  lemma TwoBytesText(table: string, q: string)
    requires Readable(table) && |q| == 4 && q[3] == '='
    ensures Encoded(table, Triple(Bits(q))[..2]) ==
      [table[Digit(q[0])], table[Digit(q[1])], table[Digit(q[2]) / 4 * 4], '=']
  {
    hide Lookup, Digit, Triple, Encoded, Readable;
    PadIsBad();
    var s0, s1, s2 := Digit(q[0]), Digit(q[1]), Digit(q[2]);
    SymbolsOfBits(s0, s1, s2, 0);
    Recombine(s0, s1, s2, 0);
    var a, b := s0 * 4 + s1 / 16, s1 % 16 * 16 + s2 / 4;
    assert Triple(Bits(q))[..2] == [a, b];
    TextOfTwo(table, a, b);
  }

  lemma TextOfTwo(table: string, a: byte, b: byte)
    requires Readable(table)
    ensures Encoded(table, [a, b]) == [table[a / 4], table[a % 4 * 16 + b / 16], table[b % 16 * 4], '=']
  {
    assert Pad(table, 1) == ['='];
    hide Lookup, Digit;
  }

  lemma TwoBytesReencode(table: string, q: string)
    requires Inverse(table) && |q| == 4 && AllGood(q[..3]) && q[3] == '='
    ensures Encoded(table, Triple(Bits(q))[..2]) == q <==> Digit(q[2]) % 4 == 0
  {
    hide Lookup, Digit, Triple, Encoded, Bits, Readable;
    assert q[..3][0] == q[0] && q[..3][1] == q[1] && q[..3][2] == q[2];
    TwoBytesText(table, q);
    SymbolIs(table, q[0], Digit(q[0]));
    SymbolIs(table, q[1], Digit(q[1]));
    SymbolIs(table, q[2], Digit(q[2]) / 4 * 4);
    hide Inverse, AllGood;
    assert q == [q[0], q[1], q[2], '='];
  }

  /** Two padding characters: the low four bits of the second symbol are dropped. */
  lemma OneByteText(table: string, q: string)
    requires Readable(table) && |q| == 4 && q[2] == q[3] == '='
    ensures Encoded(table, Triple(Bits(q))[..1]) == [table[Digit(q[0])], table[Digit(q[1]) / 16 * 16], '=', '=']
  {
    hide Lookup, Digit, Triple, Encoded, Readable;
    PadIsBad();
    var s0, s1 := Digit(q[0]), Digit(q[1]);
    SymbolsOfBits(s0, s1, 0, 0);
    Recombine(s0, s1, 0, 0);
    var a := s0 * 4 + s1 / 16;
    assert Triple(Bits(q))[..1] == [a];
    TextOfOne(table, a);
  }

  lemma TextOfOne(table: string, a: byte)
    requires Readable(table)
    ensures Encoded(table, [a]) == [table[a / 4], table[a % 4 * 16], '=', '=']
  {
    assert Pad(table, 2) == ['=', '='];
    hide Lookup, Digit;
  }

  lemma OneByteReencodes(table: string, q: string)
    requires Inverse(table) && |q| == 4 && AllGood(q[..2]) && q[2] == q[3] == '='
    ensures Encoded(table, Triple(Bits(q))[..1]) == q <==> Digit(q[1]) % 16 == 0
  {
    hide Lookup, Digit, Triple, Encoded, Bits, Readable;
    assert q[..2][0] == q[0] && q[..2][1] == q[1];
    OneByteText(table, q);
    SymbolIs(table, q[0], Digit(q[0]));
    SymbolIs(table, q[1], Digit(q[1]) / 16 * 16);
    hide Inverse, AllGood;
    assert q == [q[0], q[1], '=', '='];
  }

  lemma LastReencodes(table: string, q: string)
    requires Inverse(table) && |q| == 4 && Decoded(q).Some?
    ensures Encoded(table, Decoded(q).value) == q <==> UnusedBitsZero(q)
  {
    DecodedQuantum(q);
    hide Lookup, Decoded, Readable, Inverse, Triple, Encoded, Bits, Digit;
    match Padding(q) {
      case 0 =>
        assert q[..4] == q && Triple(Bits(q))[..3] == Triple(Bits(q));
        QuantumReencodes(table, q);
      case 1 =>
        TwoBytesReencode(table, q);
      case 2 =>
        OneByteReencodes(table, q);
    }
  }

  lemma {:induction false} Reencodes(table: string, s: string)
    requires Inverse(table) && Decoded(s).Some?
    ensures Encoded(table, Decoded(s).value) == s <==> UnusedBitsZero(s)
    decreases |s|
  {
    hide Lookup, Readable, Inverse, Triple, Bits, Digit, AllGood, Decoded, Encoded, UnusedBitsZero;
    WholeQuantums(table, s);
    if |s| == 4 {
      LastReencodes(table, s);
    } else {
      var q, rest := s[..4], s[4..];
      assert s == q + rest;
      DecodedSplit(q, rest);
      Reencodes(table, rest);
      ReencodesFront(table, q, rest, Decoded(rest).value);
      UnusedSplit(q, rest);
    }
  }

  lemma WholeQuantums(table: string, s: string)
    requires Inverse(table) && Decoded(s).Some?
    ensures |s| >= 4 && |s| % 4 == 0 && |table| == 65
  {
  }

  lemma ReencodesFront(table: string, q: string, rest: string, d: seq<byte>)
    requires Inverse(table) && |table| == 65 && |q| == 4 && AllGood(q)
    ensures Encoded(table, Triple(Bits(q)) + d) == q + rest <==> Encoded(table, d) == rest
  {
    hide Lookup, Readable, Inverse, Bits, Digit, AllGood, Encoded;
    QuantumReencodes(table, q);
    EncodedConcat(table, Triple(Bits(q)), d, 1);
    assert (q + Encoded(table, d))[4..] == Encoded(table, d) && (q + rest)[4..] == rest;
  }

  lemma UnusedSplit(q: string, rest: string)
    requires |q| == 4 && |rest| >= 4
    ensures UnusedBitsZero(q + rest) == UnusedBitsZero(rest)
  {
    hide Digit;
  }

  /** Encoding what the decoder returned gives the accepted string back exactly if the bits of its last
      symbol that no byte uses are zero (section 3.5 of RFC 4648). */
  lemma CanonicalIff(s: string)
    requires Decoded(s).Some?
    ensures Encoded(BASE64, Decoded(s).value) == s <==> UnusedBitsZero(s)
  {
    StandardIsInverse();
    Reencodes(BASE64, s);
  }

  // ---------- the URL alphabet ----------

  function UrlSymbol(c: char): char {
    if c == '+' then '-' else if c == '/' then '_' else c
  }

  /** Padding dropped, and the two symbols that are not safe in a URL replaced. */
  function Url(s: string): string {
    if s == "" then "" else (if s[0] == '=' then "" else [UrlSymbol(s[0])]) + Url(s[1..])
  }

  lemma {:induction false} UrlConcat(a: string, b: string)
    ensures Url(a + b) == Url(a) + Url(b)
    decreases |a|
  {
    if a == "" {
      assert a + b == b;
    } else {
      assert (a + b)[0] == a[0] && (a + b)[1..] == a[1..] + b;
      UrlConcat(a[1..], b);
    }
  }

  lemma {:induction false} UrlPad(n: nat)
    ensures Url(seq(n, i => '=')) == ""
  {
    if n > 0 {
      assert seq(n, i => '=')[1..] == seq(n - 1, i => '=');
      UrlPad(n - 1);
    }
  }

  lemma UrlSymbols(s: string)
    requires 2 <= |s| <= 4 && '=' !in s
    ensures Url(s) == seq(|s|, i requires 0 <= i < |s| => UrlSymbol(s[i]))
  {
    assert Url(s) == [UrlSymbol(s[0])] + Url(s[1..]);
    assert Url(s[1..]) == [UrlSymbol(s[1])] + Url(s[2..]);
    if |s| > 2 {
      assert Url(s[2..]) == [UrlSymbol(s[2])] + Url(s[3..]);
    }
    if |s| > 3 {
      assert Url(s[3..]) == [UrlSymbol(s[3])] + Url(s[4..]);
    }
  }

  ghost predicate UrlTables(table: string, url: string) {
    |table| == |url| == 65 && table[64] == '=' && url[64] == '\0'
    && forall i :: 0 <= i < 64 ==> table[i] != '=' && url[i] == UrlSymbol(table[i])
  }

  lemma StandardUrlTables()
    ensures UrlTables(BASE64, BASE64_URL)
  {
    forall i | 0 <= i < 64
      ensures BASE64[i] != '=' && BASE64_URL[i] == UrlSymbol(BASE64[i])
    {
      TableRanges(i);
      assert i < 62 ==> BASE64_URL[i] == BASE64[i];
    }
  }

  lemma UrlOfQuantum(table: string, url: string, a: byte, b: byte, c: byte)
    requires UrlTables(table, url)
    ensures Quantum(url, a, b, c) == Url(Quantum(table, a, b, c))
  {
    hide Url, UrlSymbol;
    UrlSymbols(Quantum(table, a, b, c));
  }

  lemma UrlOfOne(table: string, url: string, a: byte)
    requires UrlTables(table, url)
    ensures Encoded(url, [a]) == Url(Encoded(table, [a]))
  {
    hide Url, UrlSymbol;
    var s := [table[a / 4], table[a % 4 * 16]];
    UrlConcat(s, Pad(table, 2));
    UrlSymbols(s);
    UrlPad(2);
    assert Pad(table, 2) == seq(2, i => '=');
  }

  lemma UrlOfTwo(table: string, url: string, a: byte, b: byte)
    requires UrlTables(table, url)
    ensures Encoded(url, [a, b]) == Url(Encoded(table, [a, b]))
  {
    hide Url, UrlSymbol;
    var s := [table[a / 4], table[a % 4 * 16 + b / 16], table[b % 16 * 4]];
    UrlConcat(s, Pad(table, 1));
    UrlSymbols(s);
    UrlPad(1);
    assert Pad(table, 1) == seq(1, i => '=');
  }

  lemma {:induction false} UrlOfEncoded(table: string, url: string, data: seq<byte>)
    requires UrlTables(table, url)
    ensures Encoded(url, data) == Url(Encoded(table, data))
    decreases |data|
  {
    assert |table| == |url| == 65;
    hide UrlTables, UrlSymbol, Quantum, Pad;
    if |data| == 0 {
    } else if |data| == 1 {
      UrlOfOne(table, url, data[0]);
      assert data == [data[0]];
    } else if |data| == 2 {
      UrlOfTwo(table, url, data[0], data[1]);
      assert data == [data[0], data[1]];
    } else {
      hide Url;
      var q := Quantum(table, data[0], data[1], data[2]);
      UrlConcat(q, Encoded(table, data[3..]));
      UrlOfQuantum(table, url, data[0], data[1], data[2]);
      UrlOfEncoded(table, url, data[3..]);
    }
  }

  /** With the URL alphabet the text is the standard text in the other two symbols, without padding
      (section 5 of RFC 4648). */
  lemma UrlIsStandardUnpadded(data: seq<byte>)
    ensures Encoded(BASE64_URL, data) == Url(Encoded(BASE64, data))
  {
    StandardUrlTables();
    UrlOfEncoded(BASE64, BASE64_URL, data);
  }
}
