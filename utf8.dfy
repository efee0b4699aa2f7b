/**
  UTF-8 for a single Unicode scalar value, as RFC 3629 section 3 lays it out,
  and the lossy decoder Python runs for `bytes.decode('utf-8', errors='ignore')`.

  Dafny's `char` is a Unicode scalar value (0 to 0x10FFFF without the
  surrogates 0xD800 to 0xDFFF), which is exactly the domain UTF-8 encodes.
 */
module Utf8 {
  import opened Wrappers

  type Byte = b: int | 0 <= b < 0x100

  predicate IsContinuation(b: Byte) {
    0x80 <= b <= 0xBF
  }

  /** The UTF-8 octets of `c`: one to four bytes, the length set by the range of the code point. */
  function Encode(c: char): (bytes: seq<Byte>)
    ensures |bytes| == (if c as int < 0x80 then 1
                        else if c as int < 0x800 then 2
                        else if c as int < 0x1_0000 then 3
                        else 4)
    ensures forall k :: 1 <= k < |bytes| ==> IsContinuation(bytes[k])
  {
    var cp := c as int;
    if cp < 0x80 then
      [cp]
    else if cp < 0x800 then
      [0xC0 + cp / 0x40, 0x80 + cp % 0x40]
    else if cp < 0x1_0000 then
      [0xE0 + cp / 0x1000, 0x80 + (cp / 0x40) % 0x40, 0x80 + cp % 0x40]
    else
      [0xF0 + cp / 0x4_0000, 0x80 + (cp / 0x1000) % 0x40, 0x80 + (cp / 0x40) % 0x40, 0x80 + cp % 0x40]
  }

  /**
    Decodes the well-formed sequence at the front of `s` (the table of
    well-formed byte sequences of RFC 3629 section 4), giving the scalar value
    and the number of bytes it occupies; None when the front is ill-formed.
   */
  function DecodeFirst(s: seq<Byte>): (r: Option<(char, nat)>)
    requires |s| > 0
    ensures r.Some? ==> 1 <= r.value.1 <= |s| && r.value.1 <= 4
    ensures r.Some? && r.value.1 == 1 ==> r.value.0 as int == s[0]
    ensures r.Some? ==> (r.value.0 as int < 0x80 <==> r.value.1 == 1)
  {
    var b0: int := s[0];
    if b0 < 0x80 then
      Some((b0 as char, 1))
    else if 0xC2 <= b0 <= 0xDF then
      if |s| >= 2 && IsContinuation(s[1]) then
        Some((((b0 - 0xC0) * 0x40 + (s[1] as int - 0x80)) as char, 2))
      else
        None
    else if 0xE0 <= b0 <= 0xEF then
      var lo := if b0 == 0xE0 then 0xA0 else 0x80;
      var hi := if b0 == 0xED then 0x9F else 0xBF;
      if |s| >= 3 && lo <= s[1] <= hi && IsContinuation(s[2]) then
        Some((((b0 - 0xE0) * 0x1000 + (s[1] as int - 0x80) * 0x40 + (s[2] as int - 0x80)) as char, 3))
      else
        None
    else if 0xF0 <= b0 <= 0xF4 then
      var lo := if b0 == 0xF0 then 0x90 else 0x80;
      var hi := if b0 == 0xF4 then 0x8F else 0xBF;
      if |s| >= 4 && lo <= s[1] <= hi && IsContinuation(s[2]) && IsContinuation(s[3]) then
        Some((((b0 - 0xF0) * 0x4_0000 + (s[1] as int - 0x80) * 0x1000 + (s[2] as int - 0x80) * 0x40 + (s[3] as int - 0x80)) as char, 4))
      else
        None
    else
      None
  }

  /**
    Lossy decoding: every well-formed sequence becomes its character and every
    byte that cannot start one is dropped. Dropping the maximal ill-formed
    subpart (as Python does) or one byte at a time gives the same text, since
    a continuation byte never starts a well-formed sequence.
   */
  function DecodeIgnoring(s: seq<Byte>): (text: string)
    ensures |text| <= |s|
    decreases |s|
  {
    if s == [] then
      []
    else
      match DecodeFirst(s)
      case Some((c, n)) => [c] + DecodeIgnoring(s[n..])
      case None => DecodeIgnoring(s[1..])
  }

  /** The decoder reads back exactly the sequence the encoder wrote, for every scalar value. */
  lemma DecodeFirstEncode(c: char)
    ensures DecodeFirst(Encode(c)) == Some((c, |Encode(c)|))
  {
    var cp := c as int;
    if cp < 0x80 {
    } else if cp < 0x800 {
      DecodeTwoBytes(c);
    } else if cp < 0x1_0000 {
      DecodeThreeBytes(c);
    } else {
      DecodeFourBytes(c);
    }
  }

  lemma DecodeTwoBytes(c: char)
    requires 0x80 <= c as int < 0x800
    ensures DecodeFirst(Encode(c)) == Some((c, 2))
  {
  }

  lemma DecodeThreeBytes(c: char)
    requires 0x800 <= c as int < 0x1_0000
    ensures DecodeFirst(Encode(c)) == Some((c, 3))
  {
    var cp := c as int;
    var q, lo := cp / 0x40, cp % 0x40;
    var hi, mid := q / 0x40, q % 0x40;
    assert cp == q * 0x40 + lo;
    assert q == hi * 0x40 + mid;
    assert cp / 0x1000 == hi;
    assert Encode(c) == [0xE0 + hi, 0x80 + mid, 0x80 + lo];
    // The lead byte E0 needs a second byte of A0 or more (no overlong form),
    // and ED one of 9F or less (no surrogate).
    assert hi == 0 ==> mid >= 0x20;
    assert hi == 0xD ==> mid < 0x20;
  }

  lemma DecodeFourBytes(c: char)
    requires 0x1_0000 <= c as int
    ensures DecodeFirst(Encode(c)) == Some((c, 4))
  {
    var cp := c as int;
    var q, lo := cp / 0x40, cp % 0x40;
    var q', mid := q / 0x40, q % 0x40;
    var hi, upper := q' / 0x40, q' % 0x40;
    assert cp == q * 0x40 + lo;
    assert q == q' * 0x40 + mid;
    assert q' == hi * 0x40 + upper;
    assert cp / 0x1000 == q' && cp / 0x4_0000 == hi;
    assert Encode(c) == [0xF0 + hi, 0x80 + upper, 0x80 + mid, 0x80 + lo];
    // The lead byte F0 needs a second byte of 90 or more (no overlong form),
    // and F4 one of 8F or less (nothing above U+10FFFF).
    assert hi == 0 ==> upper >= 0x10;
    assert hi == 4 ==> upper < 0x10;
  }

  /** Round trip (RFC 3629 section 3): lossy-decoding the UTF-8 form of `c` gives back `c` alone. */
  lemma {:induction false} RoundTrip(c: char)
    ensures DecodeIgnoring(Encode(c)) == [c]
  {
    var e := Encode(c);
    DecodeFirstEncode(c);
    assert e[|e|..] == [];
  }
}
