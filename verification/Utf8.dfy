/** The console's reading of text: ASCII and two-byte UTF-8 (section 3 of RFC 3629). */
module Utf8 {
  type Byte = bv8
  type Codepoint = bv32

  const QUESTION_MARK: Codepoint := 0x3F

  /** `first` and `second` have the bit patterns of a two-byte sequence. */
  predicate IsPair(first: Byte, second: Byte) {
    first & 0xE0 == 0xC0 && second & 0xC0 == 0x80
  }

  function PairValue(first: Byte, second: Byte): Codepoint {
    ((first & 0x1F) as bv32 << 6) | ((second & 0x3F) as bv32)
  }

  /** A two-byte sequence by value: the lead byte carries the codepoint's high five bits, the other its low six. */
  lemma PairByValue(first: Byte, second: Byte)
    ensures IsPair(first, second) <==> 0xC0 <= first <= 0xDF && 0x80 <= second <= 0xBF
    ensures IsPair(first, second) ==>
      PairValue(first, second) == (first - 0xC0) as bv32 * 64 + (second - 0x80) as bv32
  {
  }

  /** The byte at `i`, or the terminator when the text ends before. */
  function ByteAt(text: seq<Byte>, i: nat): Byte {
    if i < |text| then text[i] else 0
  }

  /** How many bytes the unit at the front of the text takes. */
  function UnitSize(text: seq<Byte>): nat {
    if ByteAt(text, 0) >= 0x80 && IsPair(ByteAt(text, 0), ByteAt(text, 1)) then 2 else 1
  }

  function UnitValue(text: seq<Byte>): Codepoint {
    if ByteAt(text, 0) < 0x80 then ByteAt(text, 0) as bv32
    else if IsPair(ByteAt(text, 0), ByteAt(text, 1)) then PairValue(ByteAt(text, 0), ByteAt(text, 1))
    else QUESTION_MARK
  }

  lemma PairIsNoTerminator(first: Byte, second: Byte)
    requires IsPair(first, second)
    ensures second != 0
  {
  }

  lemma UnitFits(text: seq<Byte>)
    requires |text| > 0
    ensures UnitSize(text) <= |text|
  {
    if IsPair(ByteAt(text, 0), ByteAt(text, 1)) {
      PairIsNoTerminator(ByteAt(text, 0), ByteAt(text, 1));
    }
  }

  /** The codepoints of a text up to its terminator. */
  function Decode(text: seq<Byte>): seq<Codepoint>
    decreases |text|
  {
    if ByteAt(text, 0) == 0 then [] else
    UnitFits(text);
    [UnitValue(text)] + Decode(text[UnitSize(text)..])
  }

  function EncodeOne(c: Codepoint): seq<Byte>
    requires c < 0x800
  {
    if c < 0x80 then [c as bv8]
    else [(0xC0 | (c >> 6)) as bv8, (0x80 | (c & 0x3F)) as bv8]
  }

  function Encode(cs: seq<Codepoint>): seq<Byte>
    requires forall i | 0 <= i < |cs| :: cs[i] < 0x800
  {
    if |cs| == 0 then [] else EncodeOne(cs[0]) + Encode(cs[1..])
  }

  lemma EncodeBits(c: Codepoint)
    requires 0x80 <= c < 0x800
    ensures 0xC0 | (c >> 6) < 0x100 && 0x80 | (c & 0x3F) < 0x100
    ensures var first, second := (0xC0 | (c >> 6)) as bv8, (0x80 | (c & 0x3F)) as bv8;
      first >= 0x80 && IsPair(first, second) && PairValue(first, second) == c
  {
  }

  /** The encoding of one codepoint is read back and leaves the rest. */
  lemma DecodeOne(c: Codepoint, rest: seq<Byte>)
    requires 0 < c < 0x800
    ensures Decode(EncodeOne(c) + rest) == [c] + Decode(rest)
  {
    var text := EncodeOne(c) + rest;
    if c < 0x80 {
      AsciiBits(c);
      assert text[1..] == rest;
    } else {
      EncodeBits(c);
      assert text[2..] == rest;
    }
    hide PairValue, IsPair;
  }

  lemma AsciiBits(c: Codepoint)
    requires 0 < c < 0x80
    ensures 0 < c as bv8 < 0x80 && (c as bv8) as bv32 == c
  {
  }

  /** Decoding undoes encoding for every text of non-zero codepoints below 0x800. */
  lemma {:induction false} DecodeEncode(cs: seq<Codepoint>)
    requires forall i | 0 <= i < |cs| :: 0 < cs[i] < 0x800
    ensures Decode(Encode(cs)) == cs
  {
    if |cs| > 0 {
      DecodeOne(cs[0], Encode(cs[1..]));
      DecodeEncode(cs[1..]);
      assert cs == [cs[0]] + cs[1..];
    }
    hide EncodeOne;
  }

  /** Text ends at its first zero byte. */
  predicate Terminated(text: seq<Byte>, n: nat) {
    n < |text| && text[n] == 0 && forall i | 0 <= i < n :: text[i] != 0
  }

  /** One step of reading at position `i` before the terminator. */
  lemma DecodeAt(text: seq<Byte>, i: nat, n: nat)
    requires Terminated(text, n) && i < n
    ensures var first, second := text[i], text[i + 1];
      if first < 0x80 then Decode(text[i..]) == [first as bv32] + Decode(text[i + 1..])
      else if IsPair(first, second)
        then i + 2 <= n && Decode(text[i..]) == [PairValue(first, second)] + Decode(text[i + 2..])
      else Decode(text[i..]) == [QUESTION_MARK] + Decode(text[i + 1..])
  {
    var rest := text[i..];
    assert ByteAt(rest, 0) == text[i] && ByteAt(rest, 1) == text[i + 1];
    assert rest[1..] == text[i + 1..];
    if text[i] >= 0x80 && IsPair(text[i], text[i + 1]) {
      PairIsNoTerminator(text[i], text[i + 1]);
      assert rest[2..] == text[i + 2..];
    }
  }

  lemma DecodeEnd(text: seq<Byte>, i: nat)
    requires i < |text| && text[i] == 0
    ensures Decode(text[i..]) == []
  {
  }

  /** The bytes from `i` to before `j` are one unit of the text and stand for `c`: an ASCII byte, a two-byte sequence,
      or a byte that starts neither, which reads as a question mark. */
  predicate IsUnit(text: seq<Byte>, i: nat, j: nat, c: Codepoint)
    requires i + 1 < |text|
  {
    var first, second := text[i], text[i + 1];
    if first < 0x80 then j == i + 1 && c == first as bv32
    else if 0xC0 <= first <= 0xDF && 0x80 <= second <= 0xBF
    then j == i + 2 && c == (first - 0xC0) as bv32 * 64 + (second - 0x80) as bv32
    else j == i + 1 && c == 63
  }

  lemma UnitIs(text: seq<Byte>, i: nat)
    requires i + 1 < |text|
    ensures if text[i] < 0x80 then IsUnit(text, i, i + 1, text[i] as bv32)
            else if IsPair(text[i], text[i + 1]) then IsUnit(text, i, i + 2, PairValue(text[i], text[i + 1]))
            else IsUnit(text, i, i + 1, QUESTION_MARK)
  {
    PairByValue(text[i], text[i + 1]);
    hide IsPair, PairValue;
  }

  /** Unit `k` of the text stands for codepoint `k`. */
  predicate UnitAt(text: seq<Byte>, ends: seq<nat>, cs: seq<Codepoint>, k: nat)
    requires k < |cs| < |ends|
  {
    ends[k] < ends[k + 1] < |text| && IsUnit(text, ends[k], ends[k + 1], cs[k])
  }

  /** `ends` cut the bytes from `i` to `n` into units, one for each codepoint. */
  predicate Cuts(text: seq<Byte>, i: nat, n: nat, ends: seq<nat>, cs: seq<Codepoint>) {
    && |ends| == |cs| + 1 && ends[0] == i && ends[|cs|] == n
    && forall k: nat | k < |cs| :: UnitAt(text, ends, cs, k)
  }

  lemma CutOnce(text: seq<Byte>, i: nat, j: nat, n: nat, c: Codepoint, ends: seq<nat>, cs: seq<Codepoint>)
    requires i < j <= n < |text| && IsUnit(text, i, j, c) && Cuts(text, j, n, ends, cs)
    ensures Cuts(text, i, n, [i] + ends, [c] + cs)
  {
    hide IsUnit;
    forall k: nat | k < |cs| + 1 ensures UnitAt(text, [i] + ends, [c] + cs, k) {
      assert k > 0 ==> UnitAt(text, ends, cs, k - 1);
    }
  }

  lemma {:induction false} CutFrom(text: seq<Byte>, i: nat, n: nat) returns (ends: seq<nat>)
    requires Terminated(text, n) && i <= n
    ensures Cuts(text, i, n, ends, Decode(text[i..]))
    decreases n - i
  {
    if i == n {
      DecodeEnd(text, n);
      ends := [n];
    } else {
      hide Decode, IsPair, PairValue, IsUnit;
      DecodeAt(text, i, n);
      UnitIs(text, i);
      var j := if text[i] >= 0x80 && IsPair(text[i], text[i + 1]) then i + 2 else i + 1;
      var rest := CutFrom(text, j, n);
      var c := Decode(text[i..])[0];
      CutOnce(text, i, j, n, c, rest, Decode(text[j..]));
      ends := [i] + rest;
    }
  }

  /** Arbitrary bytes decode to one codepoint per unit of one or two bytes, each with its unit's value, and nothing
      behind the terminator counts. */
  lemma DecodeStops(text: seq<Byte>, n: nat)
    requires Terminated(text, n)
    ensures Decode(text) == Decode(text[..n])
    ensures exists ends: seq<nat> :: Cuts(text, 0, n, ends, Decode(text))
    ensures |Decode(text)| <= n <= 2 * |Decode(text)|
  {
    DecodeCount(text, n);
    assert text[0..] == text;
    var ends := CutFrom(text, 0, n);
  }

  lemma {:induction false} DecodeCount(text: seq<Byte>, n: nat)
    requires Terminated(text, n)
    ensures Decode(text) == Decode(text[..n])
    ensures |Decode(text)| <= n <= 2 * |Decode(text)|
    decreases n
  {
    if n > 0 {
      var k := UnitSize(text);
      if k == 2 {
        PairIsNoTerminator(ByteAt(text, 0), ByteAt(text, 1));
      }
      assert k <= n;
      assert ByteAt(text[..n], 0) == ByteAt(text, 0) && ByteAt(text[..n], 1) == ByteAt(text, 1);
      assert text[..n][k..] == text[k..][..n - k];
      DecodeCount(text[k..], n - k);
    }
  }
}
