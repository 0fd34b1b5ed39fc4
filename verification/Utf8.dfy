/**
 UTF-8 as the JSON library encodes, decodes and validates it, against the byte sequences of section
 4 of RFC 3629. A stream is its bytes followed by zeros, as a terminated string reads.
 */
module Utf8 {
  import opened Options

  type Bytes = seq<bv8>

  // Scalar values and their encodings.

  predicate Scalar(cp: bv32) {
    cp <= 0x10FFFF && !(0xD800 <= cp <= 0xDFFF)
  }

  function Encode(cp: bv32): Bytes
    requires cp <= 0x10FFFF
  {
    if cp <= 0x7F then [(cp & 0xFF) as bv8]
    else if cp <= 0x7FF then
      [((0xC0 | ((cp >> 6) & 0xFF)) & 0xFF) as bv8, ((0x80 | (cp & 0x3F)) & 0xFF) as bv8]
    else if cp <= 0xFFFF then
      [((0xE0 | ((cp >> 12) & 0xFF)) & 0xFF) as bv8, ((0x80 | ((cp >> 6) & 0x3F)) & 0xFF) as bv8,
       ((0x80 | (cp & 0x3F)) & 0xFF) as bv8]
    else
      [((0xF0 | ((cp >> 18) & 0xFF)) & 0xFF) as bv8, ((0x80 | ((cp >> 12) & 0x3F)) & 0xFF) as bv8,
       ((0x80 | ((cp >> 6) & 0x3F)) & 0xFF) as bv8, ((0x80 | (cp & 0x3F)) & 0xFF) as bv8]
  }

  // The well-formed byte sequences.

  predicate Tail(b: bv8) { 0x80 <= b <= 0xBF }

  predicate Second3(b0: bv8, b1: bv8) {
    if b0 == 0xE0 then 0xA0 <= b1 <= 0xBF else if b0 == 0xED then 0x80 <= b1 <= 0x9F else Tail(b1)
  }

  predicate Second4(b0: bv8, b1: bv8) {
    if b0 == 0xF0 then 0x90 <= b1 <= 0xBF else if b0 == 0xF4 then 0x80 <= b1 <= 0x8F else Tail(b1)
  }

  /** How many bytes a sequence has by its first; none when no sequence starts so. */
  function Length(b0: bv8): nat {
    if b0 <= 0x7F then 1
    else if 0xC2 <= b0 <= 0xDF then 2
    else if 0xE0 <= b0 <= 0xEF then 3
    else if 0xF0 <= b0 <= 0xF4 then 4
    else 0
  }

  predicate WellFormed(s: Bytes) {
    && s != [] && |s| == Length(s[0])
    && (|s| == 2 ==> Tail(s[1]))
    && (|s| == 3 ==> Second3(s[0], s[1]) && Tail(s[2]))
    && (|s| == 4 ==> Second4(s[0], s[1]) && Tail(s[2]) && Tail(s[3]))
  }

  /** A tail byte's six bits below a code point's. */
  function Push(cp: bv32, b: bv8): bv32 {
    (cp << 6) | ((b & 0x3F) as bv32)
  }

  function CodeOf(s: Bytes): bv32
    requires WellFormed(s)
  {
    if |s| == 1 then s[0] as bv32
    else if |s| == 2 then Push((s[0] & 0x1F) as bv32, s[1])
    else if |s| == 3 then Push(Push((s[0] & 0x0F) as bv32, s[1]), s[2])
    else Push(Push(Push((s[0] & 0x07) as bv32, s[1]), s[2]), s[3])
  }

  // On plain words: the bytes of a code point, and the code point of bytes.

  lemma Two(cp: bv32, b0: bv8, b1: bv8)
    requires 0x80 <= cp <= 0x7FF
    requires b0 == ((0xC0 | ((cp >> 6) & 0xFF)) & 0xFF) as bv8 && b1 == ((0x80 | (cp & 0x3F)) & 0xFF) as bv8
    ensures 0xC2 <= b0 <= 0xDF && 0x80 <= b1 <= 0xBF
    ensures (((b0 & 0x1F) as bv32) << 6) | ((b1 & 0x3F) as bv32) == cp
  {
  }

  lemma Three(cp: bv32, b0: bv8, b1: bv8, b2: bv8)
    requires 0x800 <= cp <= 0xFFFF && !(0xD800 <= cp <= 0xDFFF)
    requires b0 == ((0xE0 | ((cp >> 12) & 0xFF)) & 0xFF) as bv8
    requires b1 == ((0x80 | ((cp >> 6) & 0x3F)) & 0xFF) as bv8 && b2 == ((0x80 | (cp & 0x3F)) & 0xFF) as bv8
    ensures 0xE0 <= b0 <= 0xEF && 0x80 <= b1 <= 0xBF && 0x80 <= b2 <= 0xBF
    ensures (b0 == 0xE0 ==> 0xA0 <= b1) && (b0 == 0xED ==> b1 <= 0x9F)
    ensures (((((b0 & 0x0F) as bv32) << 6) | ((b1 & 0x3F) as bv32)) << 6) | ((b2 & 0x3F) as bv32) == cp
  {
  }

  lemma Three'(cp: bv32, b0: bv8, b1: bv8, b2: bv8)
    requires 0xE0 <= b0 <= 0xEF && 0x80 <= b1 <= 0xBF && 0x80 <= b2 <= 0xBF
    requires (b0 == 0xE0 ==> 0xA0 <= b1) && (b0 == 0xED ==> b1 <= 0x9F)
    requires cp == (((((b0 & 0x0F) as bv32) << 6) | ((b1 & 0x3F) as bv32)) << 6) | ((b2 & 0x3F) as bv32)
    ensures 0x800 <= cp <= 0xFFFF && !(0xD800 <= cp <= 0xDFFF)
    ensures b0 == ((0xE0 | ((cp >> 12) & 0xFF)) & 0xFF) as bv8
    ensures b1 == ((0x80 | ((cp >> 6) & 0x3F)) & 0xFF) as bv8 && b2 == ((0x80 | (cp & 0x3F)) & 0xFF) as bv8
  {
  }

  lemma FourBits(cp: bv32, b0: bv8, b1: bv8, b2: bv8, b3: bv8)
    requires 0x10000 <= cp <= 0x10FFFF
    requires b0 == ((0xF0 | ((cp >> 18) & 0xFF)) & 0xFF) as bv8 && b1 == ((0x80 | ((cp >> 12) & 0x3F)) & 0xFF) as bv8
    requires b2 == ((0x80 | ((cp >> 6) & 0x3F)) & 0xFF) as bv8 && b3 == ((0x80 | (cp & 0x3F)) & 0xFF) as bv8
    ensures (b0 & 0x07) as bv32 == cp >> 18 && (b1 & 0x3F) as bv32 == (cp >> 12) & 0x3F
    ensures (b2 & 0x3F) as bv32 == (cp >> 6) & 0x3F && (b3 & 0x3F) as bv32 == cp & 0x3F
  {
  }

  lemma FourRanges(cp: bv32, b0: bv8, b1: bv8, b2: bv8, b3: bv8)
    requires 0x10000 <= cp <= 0x10FFFF
    requires b0 == ((0xF0 | ((cp >> 18) & 0xFF)) & 0xFF) as bv8 && b1 == ((0x80 | ((cp >> 12) & 0x3F)) & 0xFF) as bv8
    requires b2 == ((0x80 | ((cp >> 6) & 0x3F)) & 0xFF) as bv8 && b3 == ((0x80 | (cp & 0x3F)) & 0xFF) as bv8
    ensures 0xF0 <= b0 <= 0xF4 && 0x80 <= b1 <= 0xBF && 0x80 <= b2 <= 0xBF && 0x80 <= b3 <= 0xBF
    ensures (b0 == 0xF0 ==> 0x90 <= b1) && (b0 == 0xF4 ==> b1 <= 0x8F)
  {
  }

  lemma FourJoined(cp: bv32)
    ensures ((((((cp >> 18) << 6) | ((cp >> 12) & 0x3F)) << 6) | ((cp >> 6) & 0x3F)) << 6) | (cp & 0x3F) == cp
  {
  }

  lemma Four'(cp: bv32, b0: bv8, b1: bv8, b2: bv8, b3: bv8)
    requires 0xF0 <= b0 <= 0xF4 && 0x80 <= b1 <= 0xBF && 0x80 <= b2 <= 0xBF && 0x80 <= b3 <= 0xBF
    requires (b0 == 0xF0 ==> 0x90 <= b1) && (b0 == 0xF4 ==> b1 <= 0x8F)
    requires cp == (((((((b0 & 0x07) as bv32) << 6) | ((b1 & 0x3F) as bv32)) << 6) | ((b2 & 0x3F) as bv32)) << 6)
                   | ((b3 & 0x3F) as bv32)
    ensures 0x10000 <= cp <= 0x10FFFF
    ensures b0 == ((0xF0 | ((cp >> 18) & 0xFF)) & 0xFF) as bv8 && b1 == ((0x80 | ((cp >> 12) & 0x3F)) & 0xFF) as bv8
    ensures b2 == ((0x80 | ((cp >> 6) & 0x3F)) & 0xFF) as bv8 && b3 == ((0x80 | (cp & 0x3F)) & 0xFF) as bv8
  {
  }

  // Encodings are exactly the well-formed sequences.

  lemma Pushes(a: bv32, x: bv8, y: bv8, z: bv8)
    ensures Push(a, x) == (a << 6) | ((x & 0x3F) as bv32)
    ensures Push(Push(a, x), y) == (((a << 6) | ((x & 0x3F) as bv32)) << 6) | ((y & 0x3F) as bv32)
    ensures Push(Push(Push(a, x), y), z)
         == (((((a << 6) | ((x & 0x3F) as bv32)) << 6) | ((y & 0x3F) as bv32)) << 6) | ((z & 0x3F) as bv32)
  {
  }

  lemma One(cp: bv32, b0: bv8)
    requires cp <= 0x7F && b0 == (cp & 0xFF) as bv8
    ensures b0 <= 0x7F && b0 as bv32 == cp
  {
  }

  lemma One'(b: bv8)
    requires b <= 0x7F
    ensures b as bv32 <= 0x7F && (b as bv32 & 0xFF) as bv8 == b
  {
  }

  lemma EncodeTwo(cp: bv32, b0: bv8, b1: bv8)
    requires 0x80 <= cp <= 0x7FF
    requires b0 == ((0xC0 | ((cp >> 6) & 0xFF)) & 0xFF) as bv8 && b1 == ((0x80 | (cp & 0x3F)) & 0xFF) as bv8
    ensures WellFormed([b0, b1]) && CodeOf([b0, b1]) == cp
  {
    Two(cp, b0, b1);
    Pushes((b0 & 0x1F) as bv32, b1, 0, 0);
  }

  lemma EncodeThree(cp: bv32, b0: bv8, b1: bv8, b2: bv8)
    requires 0x800 <= cp <= 0xFFFF && !(0xD800 <= cp <= 0xDFFF)
    requires b0 == ((0xE0 | ((cp >> 12) & 0xFF)) & 0xFF) as bv8
    requires b1 == ((0x80 | ((cp >> 6) & 0x3F)) & 0xFF) as bv8 && b2 == ((0x80 | (cp & 0x3F)) & 0xFF) as bv8
    ensures WellFormed([b0, b1, b2]) && CodeOf([b0, b1, b2]) == cp
  {
    Three(cp, b0, b1, b2);
    ThreeIs(cp, b0, b1, b2);
  }

  /** Three bytes in their ranges are well-formed, whatever their code point. */
  lemma ThreeIs(cp: bv32, b0: bv8, b1: bv8, b2: bv8)
    requires 0xE0 <= b0 <= 0xEF && 0x80 <= b1 <= 0xBF && 0x80 <= b2 <= 0xBF
    requires (b0 == 0xE0 ==> 0xA0 <= b1) && (b0 == 0xED ==> b1 <= 0x9F)
    requires (((((b0 & 0x0F) as bv32) << 6) | ((b1 & 0x3F) as bv32)) << 6) | ((b2 & 0x3F) as bv32) == cp
    ensures WellFormed([b0, b1, b2]) && CodeOf([b0, b1, b2]) == cp
  {
    Pushes((b0 & 0x0F) as bv32, b1, b2, 0);
  }

  lemma FourWord(cp: bv32, b0: bv8, b1: bv8, b2: bv8, b3: bv8)
    requires 0x10000 <= cp <= 0x10FFFF
    requires b0 == ((0xF0 | ((cp >> 18) & 0xFF)) & 0xFF) as bv8 && b1 == ((0x80 | ((cp >> 12) & 0x3F)) & 0xFF) as bv8
    requires b2 == ((0x80 | ((cp >> 6) & 0x3F)) & 0xFF) as bv8 && b3 == ((0x80 | (cp & 0x3F)) & 0xFF) as bv8
    ensures (((((((b0 & 0x07) as bv32) << 6) | ((b1 & 0x3F) as bv32)) << 6) | ((b2 & 0x3F) as bv32)) << 6)
            | ((b3 & 0x3F) as bv32) == cp
  {
    FourBits(cp, b0, b1, b2, b3);
    FourJoined(cp);
  }

  /** Four bytes in their ranges are well-formed, whatever their code point. */
  lemma FourIs(cp: bv32, b0: bv8, b1: bv8, b2: bv8, b3: bv8)
    requires 0xF0 <= b0 <= 0xF4 && 0x80 <= b1 <= 0xBF && 0x80 <= b2 <= 0xBF && 0x80 <= b3 <= 0xBF
    requires (b0 == 0xF0 ==> 0x90 <= b1) && (b0 == 0xF4 ==> b1 <= 0x8F)
    requires (((((((b0 & 0x07) as bv32) << 6) | ((b1 & 0x3F) as bv32)) << 6) | ((b2 & 0x3F) as bv32)) << 6)
             | ((b3 & 0x3F) as bv32) == cp
    ensures WellFormed([b0, b1, b2, b3]) && CodeOf([b0, b1, b2, b3]) == cp
  {
    FourForm(b0, b1, b2, b3);
    Pushes((b0 & 0x07) as bv32, b1, b2, b3);
  }

  lemma FourForm(b0: bv8, b1: bv8, b2: bv8, b3: bv8)
    requires 0xF0 <= b0 <= 0xF4 && 0x80 <= b1 <= 0xBF && 0x80 <= b2 <= 0xBF && 0x80 <= b3 <= 0xBF
    requires (b0 == 0xF0 ==> 0x90 <= b1) && (b0 == 0xF4 ==> b1 <= 0x8F)
    ensures WellFormed([b0, b1, b2, b3])
    ensures CodeOf([b0, b1, b2, b3]) == Push(Push(Push((b0 & 0x07) as bv32, b1), b2), b3)
  {
    assert Length(b0) == 4 && Second4(b0, b1) && Tail(b2) && Tail(b3);
    FourCode([b0, b1, b2, b3]);
  }

  lemma FourCode(s: Bytes)
    requires |s| == 4 && Length(s[0]) == 4 && Second4(s[0], s[1]) && Tail(s[2]) && Tail(s[3])
    ensures WellFormed(s) && CodeOf(s) == Push(Push(Push((s[0] & 0x07) as bv32, s[1]), s[2]), s[3])
  {
  }

  lemma EncodeFour(cp: bv32, b0: bv8, b1: bv8, b2: bv8, b3: bv8)
    requires 0x10000 <= cp <= 0x10FFFF
    requires b0 == ((0xF0 | ((cp >> 18) & 0xFF)) & 0xFF) as bv8 && b1 == ((0x80 | ((cp >> 12) & 0x3F)) & 0xFF) as bv8
    requires b2 == ((0x80 | ((cp >> 6) & 0x3F)) & 0xFF) as bv8 && b3 == ((0x80 | (cp & 0x3F)) & 0xFF) as bv8
    ensures WellFormed([b0, b1, b2, b3]) && CodeOf([b0, b1, b2, b3]) == cp
  {
    FourRanges(cp, b0, b1, b2, b3);
    FourWord(cp, b0, b1, b2, b3);
    FourIs(cp, b0, b1, b2, b3);
  }

  lemma EncodeWellFormed(cp: bv32)
    requires Scalar(cp)
    ensures WellFormed(Encode(cp)) && CodeOf(Encode(cp)) == cp
  {
    var s := Encode(cp);
    if cp <= 0x7F {
      One(cp, s[0]);
    } else if cp <= 0x7FF {
      EncodeTwo(cp, s[0], s[1]);
    } else if cp <= 0xFFFF {
      EncodeThree(cp, s[0], s[1], s[2]);
    } else {
      EncodeFour(cp, s[0], s[1], s[2], s[3]);
    }
  }

  lemma DecodeTwo(b0: bv8, b1: bv8)
    requires WellFormed([b0, b1])
    ensures var cp := CodeOf([b0, b1]); Scalar(cp) && Encode(cp) == [b0, b1]
  {
  }

  lemma DecodeThree(b0: bv8, b1: bv8, b2: bv8)
    requires WellFormed([b0, b1, b2])
    ensures var cp := CodeOf([b0, b1, b2]); Scalar(cp) && Encode(cp) == [b0, b1, b2]
  {
    Pushes((b0 & 0x0F) as bv32, b1, b2, 0);
    Three'((((((b0 & 0x0F) as bv32) << 6) | ((b1 & 0x3F) as bv32)) << 6) | ((b2 & 0x3F) as bv32), b0, b1, b2);
  }

  lemma DecodeFour(b0: bv8, b1: bv8, b2: bv8, b3: bv8)
    requires WellFormed([b0, b1, b2, b3])
    ensures var cp := CodeOf([b0, b1, b2, b3]); Scalar(cp) && Encode(cp) == [b0, b1, b2, b3]
  {
    Pushes((b0 & 0x07) as bv32, b1, b2, b3);
    Four'((((((((b0 & 0x07) as bv32) << 6) | ((b1 & 0x3F) as bv32)) << 6) | ((b2 & 0x3F) as bv32)) << 6)
          | ((b3 & 0x3F) as bv32), b0, b1, b2, b3);
  }

  lemma WellFormedEncodes(s: Bytes)
    requires WellFormed(s)
    ensures Scalar(CodeOf(s)) && Encode(CodeOf(s)) == s
  {
    if |s| == 1 {
      One'(s[0]);
    } else if |s| == 2 {
      assert s == [s[0], s[1]];
      DecodeTwo(s[0], s[1]);
    } else if |s| == 3 {
      assert s == [s[0], s[1], s[2]];
      DecodeThree(s[0], s[1], s[2]);
    } else {
      assert s == [s[0], s[1], s[2], s[3]];
      DecodeFour(s[0], s[1], s[2], s[3]);
    }
  }

  // The automaton.

  /** The class of a byte: a lead's kind, or a bit for each of three ranges of tails. */
  function GetRange(c: bv8): bv8 {
    if c <= 0x7F then 0
    else if c <= 0x8F then 0x10
    else if c <= 0x9F then 0x40
    else if c <= 0xBF then 0x20
    else if c <= 0xC1 then 8
    else if c <= 0xDF then 2
    else if c == 0xE0 then 10
    else if c == 0xED then 4
    else if c <= 0xEF then 3
    else if c == 0xF0 then 11
    else if c <= 0xF3 then 6
    else if c == 0xF4 then 5
    else 8
  }

  predicate InRange(c: bv8, mask: bv8) { GetRange(c) & mask != 0 }

  lemma Ranges(c: bv8)
    ensures InRange(c, 0x70) <==> 0x80 <= c <= 0xBF
    ensures InRange(c, 0x50) <==> 0x80 <= c <= 0x9F
    ensures InRange(c, 0x10) <==> 0x80 <= c <= 0x8F
    ensures InRange(c, 0x20) <==> 0xA0 <= c <= 0xBF
    ensures InRange(c, 0x60) <==> 0x90 <= c <= 0xBF
  {
  }

  /** What follows a lead of a kind: the ranges of its tails; none for what is no lead. */
  function Masks(kind: bv8): Option<seq<bv8>> {
    if kind == 2 then Some([0x70])
    else if kind == 3 then Some([0x70, 0x70])
    else if kind == 4 then Some([0x50, 0x70])
    else if kind == 5 then Some([0x10, 0x70, 0x70])
    else if kind == 6 then Some([0x70, 0x70, 0x70])
    else if kind == 10 then Some([0x20, 0x70])
    else if kind == 11 then Some([0x60, 0x70, 0x70])
    else None
  }

  /** The stream: the bytes, then zeros. */
  function At(s: Bytes, k: nat): bv8 {
    if k < |s| then s[k] else 0
  }

  function Taken(s: Bytes, i: nat, n: nat): (r: Bytes)
    ensures |r| == n
  {
    seq(n, k requires 0 <= k < n => At(s, i + k))
  }

  /** The sequence that starts at `i`, if one does. */
  function Sequence(s: Bytes, i: nat): (r: Option<Bytes>)
    ensures r.Some? ==> WellFormed(r.value) && r.value == Taken(s, i, |r.value|)
  {
    var t := Taken(s, i, Length(At(s, i)));
    if WellFormed(t) then Some(t) else None
  }

  /** A sequence starts at `i` exactly when a scalar value's encoding does, and it is that encoding. */
  lemma SequenceIsEncoding(s: Bytes, i: nat, cp: bv32)
    requires Scalar(cp)
    ensures Sequence(s, i) == Some(Encode(cp)) <==> Taken(s, i, |Encode(cp)|) == Encode(cp)
  {
    EncodeWellFormed(cp);
    var e := Encode(cp);
    if Taken(s, i, |e|) == e {
      assert At(s, i) == Taken(s, i, |e|)[0];
    }
  }

  /** Each byte after the lead is in its range. */
  predicate Matches(s: Bytes, i: nat, masks: seq<bv8>) {
    forall k :: 0 <= k < |masks| ==> InRange(At(s, i + k), masks[k])
  }

  lemma LeadKinds(c: bv8)
    requires c > 0x7F
    ensures Masks(GetRange(c)).Some? <==> Length(c) > 0
    ensures Length(c) == 2 ==> Masks(GetRange(c)) == Some([0x70])
    ensures Length(c) == 3 ==>
              Masks(GetRange(c)) == Some([if c == 0xE0 then 0x20 else if c == 0xED then 0x50 else 0x70, 0x70])
    ensures Length(c) == 4 ==>
              Masks(GetRange(c)) == Some([if c == 0xF0 then 0x60 else if c == 0xF4 then 0x10 else 0x70, 0x70, 0x70])
    ensures Length(c) != 1
  {
  }

  /** The automaton's transitions are the well-formed sequences. */
  lemma MatchesIs(s: Bytes, i: nat, masks: seq<bv8>)
    requires At(s, i) > 0x7F && Masks(GetRange(At(s, i))) == Some(masks)
    ensures Length(At(s, i)) == |masks| + 1
    ensures Sequence(s, i).Some? <==> Matches(s, i + 1, masks)
  {
    var c, t := At(s, i), Taken(s, i, |masks| + 1);
    LeadKinds(c);
    Ranges(At(s, i + 1));
    Ranges(At(s, i + 2));
    Ranges(At(s, i + 3));
    assert t[0] == c && t[1] == At(s, i + 1);
    if |masks| == 1 {
      assert Matches(s, i + 1, masks) <==> InRange(t[1], masks[0]);
    } else if |masks| == 2 {
      assert t[2] == At(s, i + 2);
      assert Matches(s, i + 1, masks) <==> InRange(t[1], masks[0]) && InRange(t[2], masks[1]);
    } else {
      assert t[2] == At(s, i + 2) && t[3] == At(s, i + 3);
      assert Matches(s, i + 1, masks) <==>
             InRange(t[1], masks[0]) && InRange(t[2], masks[1]) && InRange(t[3], masks[2]);
    }
  }

  lemma NoLead(s: Bytes, i: nat)
    requires At(s, i) > 0x7F && Masks(GetRange(At(s, i))).None?
    ensures Sequence(s, i).None?
  {
  }

  lemma Ascii(s: Bytes, i: nat)
    requires At(s, i) <= 0x7F
    ensures Sequence(s, i) == Some([At(s, i)])
  {
    assert Taken(s, i, 1) == [At(s, i)];
  }

  function PushAll(cp: bv32, s: Bytes): bv32 {
    if s == [] then cp else Push(PushAll(cp, s[..|s| - 1]), s[|s| - 1])
  }

  /** The bits of a code point that its lead holds: the mask has as many high zeros as the kind says. */
  function LeadBits(kind: bv8, c: bv8): bv32 {
    if kind >= 32 then 0 else (0xFF >> kind) & (c as bv32)
  }

  lemma LeadWords(c: bv8)
    ensures 0xC2 <= c <= 0xDF ==> (0xFF >> 2) & (c as bv32) == (c & 0x1F) as bv32
    ensures c == 0xE0 ==> (0xFF >> 10) & (c as bv32) == (c & 0x0F) as bv32
    ensures 0xE1 <= c <= 0xEF ==> (0xFF >> 3) & (c as bv32) == (c & 0x0F) as bv32
    ensures c == 0xED ==> (0xFF >> 4) & (c as bv32) == (c & 0x0F) as bv32
    ensures c == 0xF0 ==> (0xFF >> 11) & (c as bv32) == (c & 0x07) as bv32
    ensures 0xF1 <= c <= 0xF3 ==> (0xFF >> 6) & (c as bv32) == (c & 0x07) as bv32
    ensures c == 0xF4 ==> (0xFF >> 5) & (c as bv32) == (c & 0x07) as bv32
  {
  }

  /** The accumulated code point is the sequence's. */
  lemma PushAllIs(s: Bytes)
    requires WellFormed(s) && |s| > 1
    ensures PushAll(LeadBits(GetRange(s[0]), s[0]), s[1..]) == CodeOf(s)
  {
    var c := s[0];
    LeadWords(c);
    var lead := if |s| == 2 then (c & 0x1F) as bv32 else if |s| == 3 then (c & 0x0F) as bv32 else (c & 0x07) as bv32;
    assert LeadBits(GetRange(c), c) == lead;
    if |s| == 2 {
      assert s[1..] == [s[1]];
    } else if |s| == 3 {
      assert s[1..] == [s[1]] + [s[2]];
      PushAllNext(lead, [s[1]], s[2]);
    } else {
      assert [s[1]] + [s[2]] == [s[1], s[2]];
      assert s[1..] == [s[1], s[2]] + [s[3]];
      PushAllNext(lead, [s[1]], s[2]);
      PushAllNext(lead, [s[1], s[2]], s[3]);
    }
  }

  lemma {:induction false} PushAllNext(cp: bv32, s: Bytes, b: bv8)
    ensures PushAll(cp, s + [b]) == Push(PushAll(cp, s), b)
    ensures PushAll(cp, [b]) == Push(cp, b)
  {
  }

  /** The bytes after a lead, each against its range, their bits pushed below the code point's. */
  method Tails(src: Bytes, i: nat, lead: bv32, masks: seq<bv8>) returns (result: bool, codepoint: bv32, next: nat)
    ensures next == i + |masks|
    ensures codepoint == PushAll(lead, Taken(src, i, |masks|))
    ensures result <==> Matches(src, i, masks)
  {
    result, codepoint, next := true, lead, i;
    for k := 0 to |masks|
      invariant next == i + k
      invariant codepoint == PushAll(lead, Taken(src, i, k))
      invariant result <==> Matches(src, i, masks[..k])
    {
      var c := At(src, next);
      next := next + 1;
      assert Taken(src, i, k + 1) == Taken(src, i, k) + [c];
      PushAllNext(lead, Taken(src, i, k), c);
      codepoint := Push(codepoint, c);
      MatchesNext(src, i, masks, k);
      result := result && InRange(c, masks[k]);
    }
    assert masks[..|masks|] == masks;
  }

  /** Reads one code point; what is read when none starts here is the lead and as many bytes as it asks for. */
  method Decode(src: Bytes, i: nat) returns (result: bool, codepoint: bv32, next: nat)
    ensures result <==> Sequence(src, i).Some?
    ensures result ==> codepoint == CodeOf(Sequence(src, i).value) && next == i + |Sequence(src, i).value|
    ensures i < next <= i + 4
  {
    var c := At(src, i);
    if c <= 0x7F {
      Ascii(src, i);
      return true, c as bv32, i + 1;
    }
    var kind := GetRange(c);
    var masks := Masks(kind);
    if masks.None? {
      NoLead(src, i);
      return false, LeadBits(kind, c), i + 1;
    }
    MatchesIs(src, i, masks.value);
    result, codepoint, next := Tails(src, i + 1, LeadBits(kind, c), masks.value);
    if result {
      var s := Sequence(src, i).value;
      assert s[1..] == Taken(src, i + 1, |masks.value|);
      PushAllIs(s);
    }
  }

  lemma MatchesNext(s: Bytes, i: nat, masks: seq<bv8>, k: nat)
    requires k < |masks|
    ensures Matches(s, i, masks[..k + 1]) <==> Matches(s, i, masks[..k]) && InRange(At(s, i + k), masks[k])
  {
  }

  /** Copies one sequence to the output, saying whether it is well-formed. */
  method Validate(src: Bytes, i: nat, before: Bytes) returns (result: bool, next: nat, os: Bytes)
    ensures result <==> Sequence(src, i).Some?
    ensures result ==> next == i + |Sequence(src, i).value| && os == before + Sequence(src, i).value
    ensures i < next <= i + 4 && os == before + Taken(src, i, next - i)
  {
    var c := At(src, i);
    next, os := i + 1, before + [c];
    assert Taken(src, i, 1) == [c];
    if c <= 0x7F {
      Ascii(src, i);
      return true, next, os;
    }
    var masks := Masks(GetRange(c));
    if masks.None? {
      NoLead(src, i);
      return false, next, os;
    }
    MatchesIs(src, i, masks.value);
    result := true;
    for k := 0 to |masks.value|
      invariant next == i + 1 + k && os == before + Taken(src, i, k + 1)
      invariant result <==> Matches(src, i + 1, masks.value[..k])
    {
      c := At(src, next);
      assert Taken(src, i, k + 2) == Taken(src, i, k + 1) + [c];
      next, os := next + 1, os + [c];
      MatchesNext(src, i + 1, masks.value, k);
      result := result && InRange(c, masks.value[k]);
    }
    assert masks.value[..|masks.value|] == masks.value;
  }

  // Whole strings.

  function EncodeAll(cps: seq<bv32>): Bytes
    requires forall k :: 0 <= k < |cps| ==> Scalar(cps[k])
  {
    if cps == [] then []
    else
      assert Scalar(cps[0]);
      Encode(cps[0]) + EncodeAll(cps[1..])
  }

  /** The code points of a string, from `i`; none when some sequence in it is malformed. */
  function DecodeAll(s: Bytes, i: nat): Option<seq<bv32>>
    decreases |s| - i
  {
    if i >= |s| then Some([])
    else
      match Sequence(s, i)
      case None => None
      case Some(t) =>
        match DecodeAll(s, i + |t|)
        case None => None
        case Some(rest) => Some([CodeOf(t)] + rest)
  }

  /** No sequence that starts within a string runs past its end, for zero is no tail. */
  lemma SequenceInside(s: Bytes, i: nat)
    requires i < |s| && Sequence(s, i).Some?
    ensures i + |Sequence(s, i).value| <= |s| && Sequence(s, i).value == s[i..i + |Sequence(s, i).value|]
  {
    var t := Sequence(s, i).value;
    var last := |t| - 1;
    assert t[last] == At(s, i + last) && (last > 0 ==> t[last] != 0);
    assert i + |t| <= |s|;
    assert forall k :: 0 <= k < |t| ==> t[k] == At(s, i + k);
  }

  lemma EncodedStarts(before: Bytes, cp: bv32, rest: Bytes)
    requires Scalar(cp)
    ensures Sequence(before + Encode(cp) + rest, |before|) == Some(Encode(cp))
  {
    var s, e := before + Encode(cp) + rest, Encode(cp);
    forall k | 0 <= k < |e| ensures At(s, |before| + k) == e[k] {
    }
    assert Taken(s, |before|, |e|) == e;
    SequenceIsEncoding(s, |before|, cp);
  }

  /** Decoding a string's encoding gives the code points back. */
  lemma {:induction false} DecodeEncodeAll(before: Bytes, cps: seq<bv32>)
    requires forall k :: 0 <= k < |cps| ==> Scalar(cps[k])
    ensures DecodeAll(before + EncodeAll(cps), |before|) == Some(cps)
    decreases |cps|
  {
    var s := before + EncodeAll(cps);
    if cps != [] {
      var e, rest := Encode(cps[0]), EncodeAll(cps[1..]);
      EncodedStarts(before, cps[0], rest);
      EncodeWellFormed(cps[0]);
      assert s == before + e + rest;
      DecodeEncodeAll(before + e, cps[1..]);
      assert cps == [cps[0]] + cps[1..];
    }
  }

  /** A string that decodes is the encoding of its code points, which are scalar values. */
  lemma {:induction false} EncodeDecodeAll(s: Bytes, i: nat)
    requires i <= |s| && DecodeAll(s, i).Some?
    ensures forall k :: 0 <= k < |DecodeAll(s, i).value| ==> Scalar(DecodeAll(s, i).value[k])
    ensures EncodeAll(DecodeAll(s, i).value) == s[i..]
    decreases |s| - i
  {
    if i < |s| {
      var t := Sequence(s, i).value;
      SequenceInside(s, i);
      EncodeDecodeAll(s, i + |t|);
      WellFormedEncodes(t);
      var cps := DecodeAll(s, i).value;
      assert cps[1..] == DecodeAll(s, i + |t|).value;
      assert s[i..] == s[i..i + |t|] + s[i + |t|..];
    }
  }
}
