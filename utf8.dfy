/**
 * The success condition of Rust's `std::str::from_utf8`: the bytes are
 * well-formed UTF-8 in the sense of Table 3-7 of the Unicode Standard
 * (no overlong forms, no surrogates, nothing above U+10FFFF, no truncated
 * or stray continuation bytes).
 */
module Utf8 {
  import opened Bytes

  predicate InRange(b: u8, lo: int, hi: int) {
    lo <= b as int <= hi
  }

  predicate IsContinuation(b: u8) {
    InRange(b, 0x80, 0xBF)
  }

  /** The second byte allowed after a three-byte lead `b`: no overlong form, no surrogate. */
  predicate SecondOfThree(b: u8, x: u8) {
    if b == 0xE0 then InRange(x, 0xA0, 0xBF)
    else if b == 0xED then InRange(x, 0x80, 0x9F)
    else IsContinuation(x)
  }

  /** The second byte allowed after a four-byte lead `b`: no overlong form, nothing above U+10FFFF. */
  predicate SecondOfFour(b: u8, x: u8) {
    if b == 0xF0 then InRange(x, 0x90, 0xBF)
    else if b == 0xF4 then InRange(x, 0x80, 0x8F)
    else IsContinuation(x)
  }

  /** Length of the well-formed byte sequence that `s` starts with, or 0 when it starts with none. */
  function LeadWidth(s: seq<u8>): (w: nat)
    ensures w <= 4 && w <= |s|
    ensures s != [] && s[0] < 0x80 ==> w == 1
    ensures w > 1 ==> IsContinuation(s[w - 1])
  {
    if s == [] then 0
    else if s[0] < 0x80 then 1
    else if s[0] < 0xC2 then 0
    else if s[0] < 0xE0 then
      (if |s| >= 2 && IsContinuation(s[1]) then 2 else 0)
    else if s[0] < 0xF0 then
      (if |s| >= 3 && SecondOfThree(s[0], s[1]) && IsContinuation(s[2]) then 3 else 0)
    else if s[0] < 0xF5 then
      (if |s| >= 4 && SecondOfFour(s[0], s[1]) && IsContinuation(s[2]) && IsContinuation(s[3]) then 4 else 0)
    else 0
  }

  /** `from_utf8(s)` returns `Ok`. */
  predicate Valid(s: seq<u8>)
    // well-formed text never starts with a continuation byte, 0xC0, 0xC1 or 0xF5..0xFF
    ensures Valid(s) && s != [] ==> s[0] < 0x80 || InRange(s[0], 0xC2, 0xF4)
    // and never ends on a lead byte (0xC0..0xFF); DecodeAllEncodeAll gives the full statement
    ensures Valid(s) && s != [] ==> s[|s| - 1] < 0xC0
    decreases |s|
  {
    s == [] || (LeadWidth(s) > 0 && Valid(s[LeadWidth(s)..]))
  }

  /** What LeadWidth decides depends only on the bytes it matched. */
  lemma LeadWidthExtends(s: seq<u8>, t: seq<u8>)
    requires LeadWidth(s) > 0
    ensures LeadWidth(s + t) == LeadWidth(s)
  {
    var st := s + t;
    assert forall k :: 0 <= k < |s| ==> st[k] == s[k];
  }

  /** A well-formed first sequence followed by well-formed text is well-formed. */
  lemma ValidFold(s: seq<u8>)
    requires LeadWidth(s) > 0 && Valid(s[LeadWidth(s)..])
    ensures Valid(s)
  {
  }

  lemma ValidUnfold(s: seq<u8>)
    requires Valid(s) && s != []
    ensures LeadWidth(s) > 0 && Valid(s[LeadWidth(s)..])
  {
  }

  lemma DropAppend(a: seq<u8>, b: seq<u8>, w: nat)
    requires w <= |a|
    ensures (a + b)[w..] == a[w..] + b
  {
  }

  /** Well-formed text stays well-formed when more well-formed text is appended. */
  lemma {:induction false} ValidConcat(a: seq<u8>, b: seq<u8>)
    requires Valid(a) && Valid(b)
    ensures Valid(a + b)
    decreases |a|
  {
    if a != [] {
      ValidUnfold(a);
      var w := LeadWidth(a);
      LeadWidthExtends(a, b);
      ValidConcat(a[w..], b);
      DropAppend(a, b, w);
      ValidFold(a + b);
    } else {
      assert a + b == b;
    }
  }

  /** Every pure-ASCII byte string is accepted. */
  lemma {:induction false} AsciiIsValid(s: seq<u8>)
    requires forall i :: 0 <= i < |s| ==> s[i] < 0x80
    ensures Valid(s)
    decreases |s|
  {
    if s != [] {
      AsciiIsValid(s[1..]);
    }
  }

  /** Byte strings that `from_utf8` rejects: overlong, surrogate, beyond U+10FFFF, stray and truncated. */
  lemma RejectedExamples()
    ensures !Valid([0xC0, 0x80])
    ensures !Valid([0xED, 0xA0, 0x80])
    ensures !Valid([0xF4, 0x90, 0x80, 0x80])
    ensures !Valid([0x80])
    ensures !Valid([0xE2, 0x82])
  {
  }

  /** A Unicode scalar value: a code point that is not a surrogate. */
  predicate IsScalar(c: int) {
    0 <= c < 0x11_0000 && !(0xD800 <= c < 0xE000)
  }

  /** The UTF-8 encoding of one scalar value, shortest form; anything else becomes U+FFFD. */
  function Encode(c: int): seq<u8> {
    // c's base-64 digits, least significant first: d0, d1, d2 and what is left above them
    var d0, c1 := c % 0x40, c / 0x40;
    var d1, c2 := c1 % 0x40, c1 / 0x40;
    var d2, c3 := c2 % 0x40, c2 / 0x40;
    if !IsScalar(c) then [0xEF, 0xBF, 0xBD]
    else if c < 0x80 then [c as u8]
    else if c < 0x800 then [(0xC0 + c1) as u8, (0x80 + d0) as u8]
    else if c < 0x1_0000 then [(0xE0 + c2) as u8, (0x80 + d1) as u8, (0x80 + d0) as u8]
    else [(0xF0 + c3) as u8, (0x80 + d2) as u8, (0x80 + d1) as u8, (0x80 + d0) as u8]
  }

  /** The scalar value that the well-formed sequence at the start of `s` encodes. */
  function DecodeLead(s: seq<u8>): int
    requires LeadWidth(s) > 0
  {
    var w := LeadWidth(s);
    if w == 1 then s[0] as int
    else if w == 2 then (s[0] as int - 0xC0) * 0x40 + (s[1] as int - 0x80)
    else if w == 3 then ((s[0] as int - 0xE0) * 0x40 + (s[1] as int - 0x80)) * 0x40 + (s[2] as int - 0x80)
    else (((s[0] as int - 0xF0) * 0x40 + (s[1] as int - 0x80)) * 0x40 + (s[2] as int - 0x80)) * 0x40
         + (s[3] as int - 0x80)
  }

  lemma DivMod64(q: int, r: int)
    requires 0 <= r < 0x40
    ensures (q * 0x40 + r) / 0x40 == q && (q * 0x40 + r) % 0x40 == r
  {
  }

  lemma TwoByteForm(c: int, a: int, b: int)
    requires 0x80 <= c < 0x800 && c == a * 0x40 + b && 0 <= b < 0x40
    ensures 0 <= a < 0x20
    ensures LeadWidth([(0xC0 + a) as u8, (0x80 + b) as u8]) == 2
    ensures DecodeLead([(0xC0 + a) as u8, (0x80 + b) as u8]) == c
  {
  }

  lemma ThreeByteForm(c: int, a: int, b: int, d: int)
    requires IsScalar(c) && 0x800 <= c < 0x1_0000
    requires c == (a * 0x40 + b) * 0x40 + d && 0 <= b < 0x40 && 0 <= d < 0x40
    ensures 0 <= a < 0x10
    ensures LeadWidth([(0xE0 + a) as u8, (0x80 + b) as u8, (0x80 + d) as u8]) == 3
    ensures DecodeLead([(0xE0 + a) as u8, (0x80 + b) as u8, (0x80 + d) as u8]) == c
  {
    var e := [(0xE0 + a) as u8, (0x80 + b) as u8, (0x80 + d) as u8];
    assert a == 0 ==> b >= 0x20;
    assert a == 0xD ==> b < 0x20;
    assert LeadWidth(e) == 3;
  }

  lemma FourByteForm(c: int, a: int, b: int, d: int, f: int)
    requires IsScalar(c) && 0x1_0000 <= c
    requires c == ((a * 0x40 + b) * 0x40 + d) * 0x40 + f
    requires 0 <= b < 0x40 && 0 <= d < 0x40 && 0 <= f < 0x40
    ensures 0 <= a < 0x8
    ensures LeadWidth([(0xF0 + a) as u8, (0x80 + b) as u8, (0x80 + d) as u8, (0x80 + f) as u8]) == 4
    ensures DecodeLead([(0xF0 + a) as u8, (0x80 + b) as u8, (0x80 + d) as u8, (0x80 + f) as u8]) == c
  {
    var e := [(0xF0 + a) as u8, (0x80 + b) as u8, (0x80 + d) as u8, (0x80 + f) as u8];
    assert a == 0 ==> b >= 0x10;
    assert a == 4 ==> b < 0x10;
    assert LeadWidth(e) == 4;
  }

  /** The encoding of a scalar value is one well-formed sequence, read back as that value. */
  lemma EncodeDecode(c: int)
    requires IsScalar(c)
    ensures LeadWidth(Encode(c)) == |Encode(c)|
    ensures DecodeLead(Encode(c)) == c
  {
    var d0, c1 := c % 0x40, c / 0x40;
    var d1, c2 := c1 % 0x40, c1 / 0x40;
    var d2, c3 := c2 % 0x40, c2 / 0x40;
    assert c == c1 * 0x40 + d0 && c1 == c2 * 0x40 + d1 && c2 == c3 * 0x40 + d2;
    if c < 0x80 {
    } else if c < 0x800 {
      TwoByteForm(c, c1, d0);
    } else if c < 0x1_0000 {
      ThreeByteForm(c, c2, d1, d0);
    } else {
      FourByteForm(c, c3, d2, d1, d0);
    }
  }

  /** Every well-formed sequence is the encoding of the scalar value it decodes to. */
  lemma DecodeEncode(s: seq<u8>)
    requires LeadWidth(s) > 0
    ensures IsScalar(DecodeLead(s))
    ensures Encode(DecodeLead(s)) == s[..LeadWidth(s)]
  {
    var w := LeadWidth(s);
    if w == 2 {
      DecodeEncodeTwo(s);
    } else if w == 3 {
      DecodeEncodeThree(s);
    } else if w == 4 {
      DecodeEncodeFour(s);
    }
  }

  lemma DecodeEncodeTwo(s: seq<u8>)
    requires LeadWidth(s) == 2
    ensures IsScalar(DecodeLead(s)) && Encode(DecodeLead(s)) == s[..2]
  {
    DivMod64(s[0] as int - 0xC0, s[1] as int - 0x80);
  }

  lemma DecodeEncodeThree(s: seq<u8>)
    requires LeadWidth(s) == 3
    ensures IsScalar(DecodeLead(s)) && Encode(DecodeLead(s)) == s[..3]
  {
    var a, b, d := s[0] as int - 0xE0, s[1] as int - 0x80, s[2] as int - 0x80;
    DivMod64(a * 0x40 + b, d);
    DivMod64(a, b);
  }

  lemma DecodeEncodeFour(s: seq<u8>)
    requires LeadWidth(s) == 4
    ensures IsScalar(DecodeLead(s)) && Encode(DecodeLead(s)) == s[..4]
  {
    var a, b, d, f := s[0] as int - 0xF0, s[1] as int - 0x80, s[2] as int - 0x80, s[3] as int - 0x80;
    DivMod64((a * 0x40 + b) * 0x40 + d, f);
    DivMod64(a * 0x40 + b, d);
    DivMod64(a, b);
  }

  predicate AllScalar(cs: seq<int>) {
    forall i :: 0 <= i < |cs| ==> IsScalar(cs[i])
  }

  /** The UTF-8 encoding of a string of values. */
  function EncodeAll(cs: seq<int>): seq<u8>
    decreases |cs|
  {
    if cs == [] then [] else Encode(cs[0]) + EncodeAll(cs[1..])
  }

  /** The scalar values of well-formed UTF-8, in order: what a successful `from_utf8` yields. */
  function DecodeAll(s: seq<u8>): seq<int>
    requires Valid(s)
    decreases |s|
  {
    if s == [] then [] else [DecodeLead(s)] + DecodeAll(s[LeadWidth(s)..])
  }

  /** Encoding any string of scalar values gives bytes that `from_utf8` accepts. */
  lemma {:induction false} EncodeAllValid(cs: seq<int>)
    requires AllScalar(cs)
    ensures Valid(EncodeAll(cs))
    decreases |cs|
  {
    if cs != [] {
      var e := Encode(cs[0]);
      EncodeDecode(cs[0]);
      assert e[LeadWidth(e)..] == [];
      ValidFold(e);
      EncodeAllValid(cs[1..]);
      ValidConcat(e, EncodeAll(cs[1..]));
    }
  }

  /** Decoding well-formed UTF-8 yields scalar values only. */
  lemma {:induction false} DecodeAllScalar(s: seq<u8>)
    requires Valid(s)
    ensures AllScalar(DecodeAll(s))
    decreases |s|
  {
    if s != [] {
      var w := LeadWidth(s);
      var c, rest := DecodeLead(s), DecodeAll(s[w..]);
      DecodeEncode(s);
      DecodeAllScalar(s[w..]);
      var cs := DecodeAll(s);
      assert cs == [c] + rest;
      forall i | 0 <= i < |cs| ensures IsScalar(cs[i]) {
        if i > 0 { assert cs[i] == rest[i - 1]; }
      }
    }
  }

  /** Encoding what decoding read: the first sequence comes back, followed by the rest re-encoded. */
  lemma EncodeAllDecodeAllStep(s: seq<u8>)
    requires Valid(s) && s != []
    ensures 0 < LeadWidth(s) && Valid(s[LeadWidth(s)..])
    ensures EncodeAll(DecodeAll(s)) == s[..LeadWidth(s)] + EncodeAll(DecodeAll(s[LeadWidth(s)..]))
  {
    var w := LeadWidth(s);
    var c, rest := DecodeLead(s), DecodeAll(s[w..]);
    DecodeEncode(s);
    var cs := DecodeAll(s);
    assert cs == [c] + rest;
    assert cs[0] == c && cs[1..] == rest;
  }

  lemma TakeDrop(s: seq<u8>, w: nat)
    requires w <= |s|
    ensures s[..w] + s[w..] == s
  {
  }

  /** Whatever `from_utf8` accepts is the encoding of the values it decodes to (scalar values, by DecodeAllScalar). */
  lemma {:induction false} DecodeAllEncodeAll(s: seq<u8>)
    requires Valid(s)
    ensures EncodeAll(DecodeAll(s)) == s
    decreases |s|
  {
    if s != [] {
      EncodeAllDecodeAllStep(s);
      var w := LeadWidth(s);
      DecodeAllEncodeAll(s[w..]);
      TakeDrop(s, w);
    }
  }
}
