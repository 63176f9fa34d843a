/** UTF-16 as section 2 of RFC 2781 defines it, over text without lone surrogates. */
module Utf16 {
  import opened Wrappers
  import opened Text

  type Unit = u: int | 0 <= u < 0x1_0000 witness 0

  predicate IsHigh(u: Unit) {
    0xD800 <= u < 0xDC00
  }

  predicate IsLow(u: Unit) {
    0xDC00 <= u < 0xE000
  }

  function EncodeChar(c: char): (units: seq<Unit>)
    ensures 1 <= |units| <= 2 && !IsLow(units[0])
  {
    var u := c as int;
    if u < 0x1_0000 then [u]
    else [0xD800 + (u - 0x1_0000) / 0x400, 0xDC00 + (u - 0x1_0000) % 0x400]
  }

  function Encode(s: string): seq<Unit> {
    if s == [] then [] else EncodeChar(s[0]) + Encode(s[1..])
  }

  function PrependTo(c: char, rest: Option<string>): Option<string> {
    match rest
    case None => None
    case Some(s) => Some([c] + s)
  }

  /** The character beyond the basic plane that a surrogate pair stands for. */
  function Combine(high: Unit, low: Unit): char
    requires IsHigh(high) && IsLow(low)
  {
    var h: int, l: int := high, low;
    (0x1_0000 + (h - 0xD800) * 0x400 + (l - 0xDC00)) as char
  }

  /** Decoding fails on a surrogate that has no partner. */
  function Decode(units: seq<Unit>): Option<string> {
    if units == [] then Some([])
    else if IsHigh(units[0]) then
      if |units| > 1 && IsLow(units[1]) then
        PrependTo(Combine(units[0], units[1]), Decode(units[2..]))
      else None
    else if IsLow(units[0]) then None
    else PrependTo(units[0] as char, Decode(units[1..]))
  }

  lemma DecodeChar(c: char, rest: seq<Unit>)
    ensures Decode(EncodeChar(c) + rest) == PrependTo(c, Decode(rest))
  {
    var units := EncodeChar(c) + rest;
    var u := c as int;
    if u < 0x1_0000 {
      assert units[1..] == rest;
    } else {
      var v := u - 0x1_0000;
      assert v == (v / 0x400) * 0x400 + v % 0x400;
      assert units[2..] == rest;
    }
  }

  /** Decoding undoes encoding. */
  lemma {:induction false} RoundTrip(s: string)
    ensures Decode(Encode(s)) == Some(s)
  {
    if s != [] {
      RoundTrip(s[1..]);
      DecodeChar(s[0], Encode(s[1..]));
      assert [s[0]] + s[1..] == s;
    }
  }

  lemma {:induction false} EncodeAppend(a: string, b: string)
    ensures Encode(a + b) == Encode(a) + Encode(b)
  {
    AppendTail(a, b);
    if a != [] {
      EncodeAppend(a[1..], b);
    }
  }

  lemma EncodeOpens(s: string)
    requires s != []
    ensures Encode(s) != [] && !IsLow(Encode(s)[0])
  {
  }

  // ---------------------------------------------------------------- lengths

  /** The little-endian bytes of a sequence of units. */
  function LittleEndian(units: seq<Unit>): seq<int> {
    if units == [] then [] else [units[0] % 0x100, units[0] / 0x100] + LittleEndian(units[1..])
  }

  /** `len(s.encode("utf-16-le")) // 2` */
  function Utf16Len(s: string): nat {
    |LittleEndian(Encode(s))| / 2
  }

  lemma {:induction false} LittleEndianLength(units: seq<Unit>)
    ensures |LittleEndian(units)| == 2 * |units|
  {
    if units != [] {
      LittleEndianLength(units[1..]);
    }
  }

  lemma Utf16LenIsUnits(s: string)
    ensures Utf16Len(s) == |Encode(s)|
  {
    LittleEndianLength(Encode(s));
  }

  // ---------------------------------------------------------------- ranges

  /** A unit index between two characters: in bounds, and not in the middle of a surrogate pair. */
  predicate IsCharBoundary(units: seq<Unit>, i: int) {
    0 <= i <= |units| && (i < |units| ==> !IsLow(units[i]))
  }

  lemma BoundaryAfterPrefix(a: string, b: string)
    ensures IsCharBoundary(Encode(a + b), |Encode(a)|)
  {
    EncodeAppend(a, b);
    if b != [] {
      EncodeOpens(b);
      assert Encode(a + b)[|Encode(a)|] == Encode(b)[0];
    }
  }

  /** What it means that a unit range of the encoded text is exactly `part`. */
  predicate Selects(units: seq<Unit>, start: nat, len: nat, part: string) {
    && start + len <= |units|
    && Decode(units[start..start + len]) == Some(part)
    && IsCharBoundary(units, start) && IsCharBoundary(units, start + len)
  }

  lemma EncodeMiddle(a: string, b: string, c: string)
    ensures |Encode(a)| + |Encode(b)| <= |Encode(a + b + c)|
    ensures Encode(a + b + c)[|Encode(a)|..|Encode(a)| + |Encode(b)|] == Encode(b)
  {
    EncodeAppend(a + b, c);
    EncodeAppend(a, b);
  }

  lemma MiddleSelects(a: string, b: string, c: string)
    ensures Selects(Encode(a + b + c), |Encode(a)|, |Encode(b)|, b)
  {
    EncodeMiddle(a, b, c);
    RoundTrip(b);
    BothEnds(a, b, c);
  }

  lemma BothEnds(a: string, b: string, c: string)
    ensures IsCharBoundary(Encode(a + b + c), |Encode(a)|)
    ensures IsCharBoundary(Encode(a + b + c), |Encode(a)| + |Encode(b)|)
  {
    BoundaryAfterPrefix(a, b + c);
    assert a + (b + c) == a + b + c;
    EncodeAppend(a, b);
    BoundaryAfterPrefix(a + b, c);
  }

  /**
   * Offset and length in UTF-16 units select exactly the characters between two positions: the slice of the encoded
   * text decodes to them, and neither end cuts a surrogate pair.
   */
  lemma RangeSelects(s: string, lo: nat, hi: nat)
    requires lo <= hi <= |s|
    ensures Selects(Encode(s), Utf16Len(s[..lo]), Utf16Len(s[lo..hi]), s[lo..hi])
  {
    Utf16LenIsUnits(s[..lo]);
    Utf16LenIsUnits(s[lo..hi]);
    MiddleSelects(s[..lo], s[lo..hi], s[hi..]);
    ThreeParts(s, lo, hi);
  }

  lemma ThreeParts(s: string, lo: nat, hi: nat)
    requires lo <= hi <= |s|
    ensures s[..lo] + s[lo..hi] + s[hi..] == s
  {
  }
}
