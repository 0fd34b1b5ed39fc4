/**
 The CRC of the UDP frames: a byte-wise update by table, the bitwise division by the generator
 polynomial x^16 + x^12 + x^5 + 1 that it stands for, and the changes that it detects.
 */
module CrcCcitt {

  type Bytes = seq<bv8>

  // A linear, injective map stays so when it is repeated.

  function Repeat<T>(f: T -> T, x: T, n: nat): T
    decreases n
  {
    if n == 0 then x else Repeat(f, f(x), n - 1)
  }

  ghost predicate Linear<T(!new)>(f: T -> T, add: (T, T) -> T) {
    forall x: T, y: T :: f(add(x, y)) == add(f(x), f(y))
  }

  ghost predicate Injective<T(!new)>(f: T -> T) {
    forall x: T, y: T :: f(x) == f(y) ==> x == y
  }

  lemma {:induction false} RepeatLinear<T(!new)>(f: T -> T, add: (T, T) -> T, x: T, y: T, n: nat)
    requires Linear(f, add)
    ensures Repeat(f, add(x, y), n) == add(Repeat(f, x, n), Repeat(f, y, n))
    decreases n
  {
    if n > 0 {
      RepeatLinear(f, add, f(x), f(y), n - 1);
    }
  }

  lemma {:induction false} RepeatInjective<T(!new)>(f: T -> T, x: T, y: T, n: nat)
    requires Injective(f) && Repeat(f, x, n) == Repeat(f, y, n)
    ensures x == y
    decreases n
  {
    if n > 0 {
      RepeatInjective(f, f(x), f(y), n - 1);
    }
  }

  lemma {:induction false} RepeatMore<T>(f: T -> T, x: T, m: nat, n: nat)
    ensures Repeat(f, x, m + n) == Repeat(f, Repeat(f, x, m), n)
    decreases m
  {
    if m > 0 {
      RepeatMore(f, f(x), m - 1, n);
    }
  }

  lemma {:induction false} RepeatLast<T>(f: T -> T, x: T, n: nat)
    ensures Repeat(f, f(x), n) == f(Repeat(f, x, n))
  {
    RepeatMore(f, x, n, 1);
    assert Repeat(f, x, n + 1) == Repeat(f, f(x), n);
  }

  // The bitwise reference.

  function Xor(a: bv16, b: bv16): bv16 { a ^ b }

  /** Times x, reduced by the polynomial. */
  function Shift(r: bv16): bv16 {
    if r & 0x8000 != 0 then (r << 1) ^ 0x1021 else r << 1
  }

  function One(bit: bool): bv16 { if bit then 1 else 0 }

  /** One step of long division: the remainder takes in the next bit of the dividend. */
  function Divide(r: bv16, bit: bool): bv16 {
    Xor(Shift(r), One(bit))
  }

  function Remainder(r: bv16, bits: seq<bool>): bv16
    decreases |bits|
  {
    if bits == [] then r else Remainder(Divide(r, bits[0]), bits[1..])
  }

  function Zeros(n: nat): seq<bool> {
    if n == 0 then [] else [false] + Zeros(n - 1)
  }

  /** The bits of a byte, the highest first. */
  function Bits(b: bv8): seq<bool> {
    [b & 0x80 != 0, b & 0x40 != 0, b & 0x20 != 0, b & 0x10 != 0,
     b & 0x08 != 0, b & 0x04 != 0, b & 0x02 != 0, b & 0x01 != 0]
  }

  function MessageBits(m: Bytes): seq<bool> {
    if m == [] then [] else Bits(m[0]) + MessageBits(m[1..])
  }

  /** The registers of a division, one after the other. */
  lemma {:induction false} Registers(r: seq<bv16>, bits: seq<bool>)
    requires |r| == |bits| + 1 && forall k :: 0 <= k < |bits| ==> Divide(r[k], bits[k]) == r[k + 1]
    ensures Remainder(r[0], bits) == r[|bits|]
    decreases |bits|
  {
    if bits != [] {
      Registers(r[1..], bits[1..]);
    }
  }

  /** The generator, its coefficients from x^16 down, divides itself. */
  lemma {:induction false} Generator(bits: seq<bool>)
    requires |bits| == 17 && forall k :: 0 <= k < 17 ==> (bits[k] <==> k == 0 || k == 4 || k == 11 || k == 16)
    ensures Remainder(0, bits) == 0
  {
    var r: seq<bv16> :=
      [0x0000, 0x0001, 0x0002, 0x0004, 0x0008, 0x0011, 0x0022, 0x0044, 0x0088,
       0x0110, 0x0220, 0x0440, 0x0881, 0x1102, 0x2204, 0x4408, 0x8810, 0x0000];
    Registers(r, bits);
  }

  // The update by table.

  /** A byte as the upper half of a word. */
  function Up(b: bv8): bv16 { (b as bv16) << 8 }

  function Entry(i: bv8): bv16 {
    Repeat(Shift, Up(i), 8)
  }

  /** The index into the table: the upper byte of the register, and the data byte. */
  function Index(crc: bv16, c: bv8): bv8 {
    ((crc >> 8) ^ (c as bv16)) as bv8
  }

  function Update(crc: bv16, c: bv8): bv16 {
    Xor(crc << 8, Entry(Index(crc, c)))
  }

  function Run(crc: bv16, m: Bytes): bv16
    decreases |m|
  {
    if m == [] then crc else Run(Update(crc, m[0]), m[1..])
  }

  function Checksum(m: Bytes): bv16 {
    Run(0, m)
  }

  lemma {:induction false} RunConcat(crc: bv16, a: Bytes, b: Bytes)
    ensures Run(crc, a + b) == Run(Run(crc, a), b)
    decreases |a|
  {
    if a == [] {
      assert a + b == b;
    } else {
      assert (a + b)[1..] == a[1..] + b;
      RunConcat(Update(crc, a[0]), a[1..], b);
    }
  }

  // Shifting is linear and injective.

  lemma Halves(a: bv16, b: bv16)
    ensures (a ^ b) << 1 == (a << 1) ^ (b << 1)
    ensures (a ^ b) & 0x8000 == (a & 0x8000) ^ (b & 0x8000)
    ensures a & 0x8000 == 0 || a & 0x8000 == 0x8000
  {
  }

  lemma Cancel(a: bv16, b: bv16, p: bv16)
    ensures (a ^ p) ^ b == (a ^ b) ^ p && a ^ (b ^ p) == (a ^ b) ^ p
    ensures (a ^ p) ^ (b ^ p) == a ^ b
  {
  }

  lemma ShiftXor(a: bv16, b: bv16)
    ensures Shift(Xor(a, b)) == Xor(Shift(a), Shift(b))
  {
    Halves(a, b);
    Halves(b, a);
    Cancel(a << 1, b << 1, 0x1021);
  }

  lemma ShiftLinear()
    ensures Linear(Shift, Xor)
  {
    forall a: bv16, b: bv16 ensures Shift(Xor(a, b)) == Xor(Shift(a), Shift(b)) {
      ShiftXor(a, b);
    }
  }

  lemma {:induction false} ShiftsXor(a: bv16, b: bv16, n: nat)
    ensures Repeat(Shift, Xor(a, b), n) == Xor(Repeat(Shift, a, n), Repeat(Shift, b, n))
  {
    ShiftLinear();
    RepeatLinear(Shift, Xor, a, b, n);
  }

  lemma ShiftInjective()
    ensures Injective(Shift)
  {
  }

  // The table computes eight shifts at once.

  // One function of words is unfolded at a time: the solver is quick on plain words only.

  lemma SplitWord(crc: bv16, c: bv8, u: bv16, i: bv8, ui: bv16, low: bv16)
    requires u == (c as bv16) << 8 && ui == (i as bv16) << 8
    requires i == ((crc >> 8) ^ (c as bv16)) as bv8 && low == crc & 0xFF
    ensures crc ^ u == ui ^ low && low << 8 == crc << 8 && low & 0xFF00 == 0
  {
  }

  lemma SplitXor(crc: bv16, c: bv8, u: bv16, i: bv8, ui: bv16, low: bv16)
    requires u == (c as bv16) << 8 && ui == (i as bv16) << 8
    requires i == ((crc >> 8) ^ (c as bv16)) as bv8 && low == crc & 0xFF
    ensures Xor(crc, u) == Xor(ui, low) && low << 8 == crc << 8 && low & 0xFF00 == 0
  {
    SplitWord(crc, c, u, i, ui, low);
  }

  lemma SplitUp(crc: bv16, c: bv8, i: bv8, low: bv16)
    requires i == ((crc >> 8) ^ (c as bv16)) as bv8 && low == crc & 0xFF
    ensures Xor(crc, Up(c)) == Xor(Up(i), low) && low << 8 == crc << 8 && low & 0xFF00 == 0
  {
    SplitXor(crc, c, Up(c), i, Up(i), low);
  }

  lemma SplitBytes(crc: bv16, c: bv8, low: bv16)
    requires low == crc & 0xFF
    ensures Xor(crc, Up(c)) == Xor(Up(Index(crc, c)), low) && low << 8 == crc << 8 && low & 0xFF00 == 0
  {
    SplitUp(crc, c, Index(crc, c), low);
  }

  lemma LowShift(r: bv16)
    requires r & 0x8000 == 0
    ensures Shift(r) == r << 1
  {
  }

  lemma {:induction false} LowShifts(r: bv16, r1: bv16, r2: bv16, r3: bv16, r4: bv16)
    requires r & 0xF000 == 0 && r1 == r << 1 && r2 == r1 << 1 && r3 == r2 << 1 && r4 == r3 << 1
    ensures Repeat(Shift, r, 4) == r4
  {
    assert r & 0x8000 == 0 && r1 & 0x8000 == 0 && r2 & 0x8000 == 0 && r3 & 0x8000 == 0;
    LowShift(r);
    LowShift(r1);
    LowShift(r2);
    LowShift(r3);
    assert Repeat(Shift, r, 4) == Repeat(Shift, r1, 3) == Repeat(Shift, r2, 2) == Repeat(Shift, r3, 1);
  }

  lemma {:induction false} LowByteShift(r: bv16)
    requires r & 0xFF00 == 0
    ensures Repeat(Shift, r, 8) == r << 8
  {
  }

  lemma XorCommutes(a: bv16, b: bv16)
    ensures Xor(a, b) == Xor(b, a)
  {
  }

  lemma UpdateShifts(crc: bv16, c: bv8)
    ensures Update(crc, c) == Repeat(Shift, Xor(crc, Up(c)), 8)
  {
    var i := Index(crc, c);
    var low := crc & 0xFF;
    SplitBytes(crc, c, low);
    ShiftsXor(Up(i), low, 8);
    LowByteShift(low);
    XorCommutes(Entry(i), crc << 8);
  }

  // The division by table, bit by bit.

  /** A bit above the register. */
  function Head(bit: bool): bv16 { if bit then 0x8000 else 0 }

  predicate Top(w: bv16) { w & 0x8000 != 0 }

  /** The register that takes the dividend in at its top: sixteen shifts ahead of the long division. */
  function Feed(r: bv16, bit: bool): bv16 {
    Shift(Xor(r, Head(bit)))
  }

  function FeedAll(r: bv16, bits: seq<bool>): bv16
    decreases |bits|
  {
    if bits == [] then r else FeedAll(Feed(r, bits[0]), bits[1..])
  }

  lemma {:induction false} FeedConcat(r: bv16, a: seq<bool>, b: seq<bool>)
    ensures FeedAll(r, a + b) == FeedAll(FeedAll(r, a), b)
    decreases |a|
  {
    if a == [] {
      assert a + b == b;
    } else {
      assert (a + b)[1..] == a[1..] + b;
      FeedConcat(Feed(r, a[0]), a[1..], b);
    }
  }

  /** What `p` shows of a value as `f` is repeated. */
  function Shown<T>(f: T -> T, p: T -> bool, x: T, n: nat): seq<bool>
    decreases n
  {
    if n == 0 then [] else [p(x)] + Shown(f, p, f(x), n - 1)
  }

  lemma ShownEight<T>(f: T -> T, p: T -> bool, x: T, x1: T, x2: T, x3: T, x4: T, x5: T, x6: T,
      x7: T, x8: T)
    requires x1 == f(x) && x2 == f(x1) && x3 == f(x2) && x4 == f(x3)
    requires x5 == f(x4) && x6 == f(x5) && x7 == f(x6) && x8 == f(x7)
    ensures Shown(f, p, x, 8) == [p(x), p(x1), p(x2), p(x3), p(x4), p(x5), p(x6), p(x7)]
    ensures Repeat(f, x, 8) == x8
  {
  }

  /** The bits of a word, from the highest, as it is shifted out. */
  function Tops(w: bv16, n: nat): seq<bool> {
    Shown(Left, Top, w, n)
  }

  function Left(w: bv16): bv16 { w << 1 }

  lemma TopWord(r: bv16, w: bv16, h: bv16, fed: bv16, rest: bv16)
    requires h == (if w & 0x8000 != 0 then 0x8000 else 0) && rest == w & 0x7FFF && fed == r ^ h
    ensures r ^ w == fed ^ rest && rest << 1 == w << 1 && rest & 0x8000 == 0
  {
  }

  lemma TopXor(r: bv16, w: bv16, h: bv16, rest: bv16)
    requires h == (if w & 0x8000 != 0 then 0x8000 else 0) && rest == w & 0x7FFF
    ensures Xor(r, w) == Xor(Xor(r, h), rest) && rest << 1 == w << 1 && rest & 0x8000 == 0
  {
    TopWord(r, w, h, r ^ h, rest);
  }

  lemma FeedHead(r: bv16, w: bv16, h: bv16)
    requires h == (if w & 0x8000 != 0 then 0x8000 else 0)
    ensures Shift(Xor(r, w)) == Xor(Shift(Xor(r, h)), w << 1)
  {
    var rest := w & 0x7FFF;
    TopXor(r, w, h, rest);
    ShiftXor(Xor(r, h), rest);
    LowShift(rest);
  }

  lemma FeedTop(r: bv16, w: bv16)
    ensures Shift(Xor(r, w)) == Xor(Feed(r, Top(w)), Left(w))
  {
    FeedHead(r, w, Head(Top(w)));
  }

  /** Shifting a register and a word together feeds the register the bits shifted out of the word. */
  lemma {:induction false} FeedTops(r: bv16, w: bv16, n: nat)
    ensures Repeat(Shift, Xor(r, w), n) == Xor(FeedAll(r, Tops(w, n)), Repeat(Left, w, n))
    decreases n
  {
    if n > 0 {
      FeedTop(r, w);
      FeedTops(Feed(r, Top(w)), Left(w), n - 1);
      assert Tops(w, n)[1..] == Tops(Left(w), n - 1);
    }
  }

  lemma ByteWord(c: bv8, w: bv16, w1: bv16, w2: bv16, w3: bv16, w4: bv16, w5: bv16, w6: bv16,
      w7: bv16, w8: bv16)
    requires w == (c as bv16) << 8
    requires w1 == w << 1 && w2 == w1 << 1 && w3 == w2 << 1 && w4 == w3 << 1
    requires w5 == w4 << 1 && w6 == w5 << 1 && w7 == w6 << 1 && w8 == w7 << 1
    ensures (w & 0x8000 != 0 <==> c & 0x80 != 0) && (w1 & 0x8000 != 0 <==> c & 0x40 != 0)
    ensures (w2 & 0x8000 != 0 <==> c & 0x20 != 0) && (w3 & 0x8000 != 0 <==> c & 0x10 != 0)
    ensures (w4 & 0x8000 != 0 <==> c & 0x08 != 0) && (w5 & 0x8000 != 0 <==> c & 0x04 != 0)
    ensures (w6 & 0x8000 != 0 <==> c & 0x02 != 0) && (w7 & 0x8000 != 0 <==> c & 0x01 != 0)
    ensures w8 == 0
  {
  }

  lemma {:induction false} ByteTops(c: bv8, w: bv16)
    requires w == (c as bv16) << 8
    ensures Tops(w, 8) == Bits(c) && Repeat(Left, w, 8) == 0
  {
    var w1 := Left(w);
    var w2 := Left(w1);
    var w3 := Left(w2);
    var w4 := Left(w3);
    var w5 := Left(w4);
    var w6 := Left(w5);
    var w7 := Left(w6);
    ByteWord(c, w, w1, w2, w3, w4, w5, w6, w7, Left(w7));
    ShownEight(Left, Top, w, w1, w2, w3, w4, w5, w6, w7, Left(w7));
  }

  lemma {:induction false} UpdateFeeds(crc: bv16, c: bv8)
    ensures Update(crc, c) == FeedAll(crc, Bits(c))
  {
    UpdateShifts(crc, c);
    FeedTops(crc, Up(c), 8);
    ByteTops(c, Up(c));
    XorNothing(FeedAll(crc, Bits(c)));
  }

  lemma XorNothing(a: bv16)
    ensures Xor(a, 0) == a
  {
  }

  lemma {:induction false} RunFeeds(crc: bv16, m: Bytes)
    ensures Run(crc, m) == FeedAll(crc, MessageBits(m))
    decreases |m|
  {
    if m != [] {
      UpdateFeeds(crc, m[0]);
      FeedConcat(crc, Bits(m[0]), MessageBits(m[1..]));
      RunFeeds(Update(crc, m[0]), m[1..]);
    }
  }

  lemma OneShifts(bit: bool)
    ensures Repeat(Shift, One(bit), 16) == Shift(Head(bit))
  {
    var one := One(bit);
    assert one == 0 || one == 1;
    LowByteShift(one);
    RepeatMore(Shift, one, 8, 8);
    var w := one << 8;
    LowShifts(w, if bit then 0x200 else 0, if bit then 0x400 else 0,
              if bit then 0x800 else 0, if bit then 0x1000 else 0);
    RepeatMore(Shift, w, 4, 4);
    FourShifts(if bit then 0x1000 else 0, if bit then 0x2000 else 0, if bit then 0x4000 else 0, Head(bit));
  }

  lemma {:induction false} FourShifts(a: bv16, b: bv16, c: bv16, d: bv16)
    requires a & 0xE000 == 0 && b == a << 1 && c == b << 1 && d == c << 1
    ensures Repeat(Shift, a, 4) == Shift(d)
  {
    assert a & 0x8000 == 0 && b & 0x8000 == 0 && c & 0x8000 == 0;
    LowShift(a);
    LowShift(b);
    LowShift(c);
    assert Repeat(Shift, a, 4) == Repeat(Shift, b, 3) == Repeat(Shift, c, 2) == Repeat(Shift, d, 1);
  }

  /** Feeding at the top and dividing at the bottom keep sixteen shifts apart. */
  lemma {:induction false} FeedAhead(r: bv16, bit: bool)
    ensures Feed(Repeat(Shift, r, 16), bit) == Repeat(Shift, Divide(r, bit), 16)
  {
    ShiftsXor(Shift(r), One(bit), 16);
    RepeatLast(Shift, r, 16);
    OneShifts(bit);
    ShiftXor(Repeat(Shift, r, 16), Head(bit));
  }

  lemma {:induction false} FeedsAhead(r: bv16, bits: seq<bool>)
    ensures FeedAll(Repeat(Shift, r, 16), bits) == Repeat(Shift, Remainder(r, bits), 16)
    decreases |bits|
  {
    if bits != [] {
      FeedAhead(r, bits[0]);
      FeedsAhead(Divide(r, bits[0]), bits[1..]);
    }
  }

  lemma {:induction false} RemainderConcat(r: bv16, a: seq<bool>, b: seq<bool>)
    ensures Remainder(r, a + b) == Remainder(Remainder(r, a), b)
    decreases |a|
  {
    if a == [] {
      assert a + b == b;
    } else {
      assert (a + b)[1..] == a[1..] + b;
      RemainderConcat(Divide(r, a[0]), a[1..], b);
    }
  }

  lemma {:induction false} RemainderZeros(r: bv16, n: nat)
    ensures Remainder(r, Zeros(n)) == Repeat(Shift, r, n)
    decreases n
  {
    if n > 0 {
      XorNothing(Shift(r));
      assert Zeros(n)[1..] == Zeros(n - 1);
      RemainderZeros(Shift(r), n - 1);
    }
  }

  lemma {:induction false} ShiftsZero(n: nat)
    ensures Repeat(Shift, 0, n) == 0
    decreases n
  {
    if n > 0 {
      ShiftsZero(n - 1);
    }
  }

  /** The checksum is the remainder of the message, times x^16, by long division. */
  lemma {:induction false} ChecksumDivides(m: Bytes)
    ensures Checksum(m) == Remainder(0, MessageBits(m) + Zeros(16))
  {
    RunFeeds(0, m);
    ShiftsZero(16);
    FeedsAhead(0, MessageBits(m));
    RemainderConcat(0, MessageBits(m), Zeros(16));
    RemainderZeros(Remainder(0, MessageBits(m)), 16);
  }

  // What the checksum detects.

  function Upper(crc: bv16): bv8 { ((crc >> 8) & 0xFF) as bv8 }

  function Lower(crc: bv16): bv8 { (crc & 0xFF) as bv8 }

  function Low(b: bv8): bv16 { b as bv16 }

  lemma XorCancels(a: bv16, b: bv16, c: bv16)
    ensures Xor(a, c) == Xor(b, c) <==> a == b
    ensures Xor(c, a) == Xor(c, b) <==> a == b
  {
  }

  /** The next checksum determines the one before it. */
  lemma UpdateInjective(a: bv16, b: bv16, c: bv8)
    requires Update(a, c) == Update(b, c)
    ensures a == b
  {
    UpdateShifts(a, c);
    UpdateShifts(b, c);
    ShiftInjective();
    RepeatInjective(Shift, Xor(a, Up(c)), Xor(b, Up(c)), 8);
    XorCancels(a, b, Up(c));
  }

  lemma {:induction false} RunInjective(a: bv16, b: bv16, m: Bytes)
    requires Run(a, m) == Run(b, m)
    ensures a == b
    decreases |m|
  {
    if m != [] {
      RunInjective(Update(a, m[0]), Update(b, m[0]), m[1..]);
      UpdateInjective(a, b, m[0]);
    }
  }

  /** Two bytes as a word. */
  function Pair(x: bv8, y: bv8): bv16 { Xor(Up(x), Low(y)) }

  lemma PairInjective(x: bv8, y: bv8, x': bv8, y': bv8)
    requires Pair(x, y) == Pair(x', y')
    ensures x == x' && y == y'
  {
  }

  lemma XorAssociates(a: bv16, b: bv16, c: bv16)
    ensures Xor(Xor(a, b), c) == Xor(a, Xor(b, c))
  {
  }

  lemma LowShiftsUp(y: bv8)
    ensures Repeat(Shift, Low(y), 8) == Up(y)
  {
  }

  /** Two bytes are sixteen shifts of the register and their word. */
  lemma {:induction false} TwoUpdates(crc: bv16, x: bv8, y: bv8)
    ensures Run(crc, [x, y]) == Repeat(Shift, Xor(crc, Pair(x, y)), 16)
  {
    var first := Xor(crc, Up(x));
    UpdateShifts(crc, x);
    UpdateShifts(Update(crc, x), y);
    LowShiftsUp(y);
    ShiftsXor(first, Low(y), 8);
    RepeatMore(Shift, Xor(first, Low(y)), 8, 8);
    XorAssociates(crc, Up(x), Low(y));
    assert [x, y][1..] == [y];
    assert Run(crc, [x, y]) == Run(Update(crc, x), [y]);
    assert Run(Update(crc, x), [y]) == Update(Update(crc, x), y);
  }

  lemma {:induction false} TwoUpdatesInjective(crc: bv16, x: bv8, y: bv8, x': bv8, y': bv8)
    requires Run(crc, [x, y]) == Run(crc, [x', y'])
    ensures x == x' && y == y'
  {
    TwoUpdates(crc, x, y);
    TwoUpdates(crc, x', y');
    ShiftInjective();
    RepeatInjective(Shift, Xor(crc, Pair(x, y)), Xor(crc, Pair(x', y')), 16);
    XorCancels(Pair(x, y), Pair(x', y'), crc);
    PairInjective(x, y, x', y');
  }

  /** Altering any two adjacent bytes of a message, or either, alters its checksum. */
  lemma PairChange(before: Bytes, x: bv8, y: bv8, x': bv8, y': bv8, after: Bytes)
    ensures Checksum(before + [x, y] + after) == Checksum(before + [x', y'] + after) <==> x == x' && y == y'
  {
    Around(before, [x, y], after);
    Around(before, [x', y'], after);
    var crc := Checksum(before);
    if Checksum(before + [x, y] + after) == Checksum(before + [x', y'] + after) {
      RunInjective(Run(crc, [x, y]), Run(crc, [x', y']), after);
      TwoUpdatesInjective(crc, x, y, x', y');
    }
  }

  /** Altering any one byte of a message alters its checksum. */
  lemma ByteChange(before: Bytes, x: bv8, x': bv8, after: Bytes)
    ensures Checksum(before + [x] + after) == Checksum(before + [x'] + after) <==> x == x'
  {
    Around(before, [x], after);
    Around(before, [x'], after);
    var crc := Checksum(before);
    if Checksum(before + [x] + after) == Checksum(before + [x'] + after) {
      RunInjective(Run(crc, [x]), Run(crc, [x']), after);
      assert Run(crc, [x, 0]) == Run(Run(crc, [x]), [0]) by {
        RunConcat(crc, [x], [0]);
      }
      assert Run(crc, [x', 0]) == Run(Run(crc, [x']), [0]) by {
        RunConcat(crc, [x'], [0]);
      }
      TwoUpdatesInjective(crc, x, 0, x', 0);
    }
  }

  lemma {:induction false} Around(before: Bytes, m: Bytes, after: Bytes)
    ensures Checksum(before + m + after) == Run(Run(Checksum(before), m), after)
  {
    RunConcat(0, before + m, after);
    RunConcat(0, before, m);
  }

  /** A message followed by two bytes has checksum 0 exactly when they are its checksum, upper byte first. */
  lemma AppendedChecksum(m: Bytes, x: bv8, y: bv8)
    ensures Checksum(m + [x, y]) == 0 <==> x == Upper(Checksum(m)) && y == Lower(Checksum(m))
  {
    var crc := Checksum(m);
    RunConcat(0, m, [x, y]);
    TwoUpdates(crc, Upper(crc), Lower(crc));
    OwnPair(crc);
    ShiftsZero(16);
    if Checksum(m + [x, y]) == 0 {
      TwoUpdatesInjective(crc, x, y, Upper(crc), Lower(crc));
    }
  }

  lemma OwnPair(crc: bv16)
    ensures Xor(crc, Pair(Upper(crc), Lower(crc))) == 0
  {
  }

  // The calculator.

  lemma InitStepWord(crc: bv16, c: bv16, h: bv16, top: bool, left: bv16)
    requires h == (if c & 0x8000 != 0 then 0x8000 else 0) && left == crc << 1
    requires top <==> (crc ^ c) & 0x8000 != 0
    ensures (top <==> (crc ^ h) & 0x8000 != 0) && left == (crc ^ h) << 1
  {
  }

  lemma ShiftParts(x: bv16, top: bool, left: bv16)
    requires (top <==> x & 0x8000 != 0) && left == x << 1
    ensures Shift(x) == if top then left ^ 0x1021 else left
  {
  }

  lemma XorIs(a: bv16, b: bv16, x: bv16)
    requires x == Xor(a, b)
    ensures x == a ^ b
  {
  }

  lemma InitStepXor(crc: bv16, c: bv16, h: bv16, x: bv16, top: bool, left: bv16)
    requires h == (if c & 0x8000 != 0 then 0x8000 else 0) && left == crc << 1 && x == crc ^ h
    requires top <==> (crc ^ c) & 0x8000 != 0
    ensures Shift(x) == if top then left ^ 0x1021 else left
  {
    InitStepWord(crc, c, h, top, left);
    ShiftParts(x, top, left);
  }

  /** One turn of the loop that fills a table entry. */
  lemma InitStep(crc: bv16, c: bv16, top: bool, left: bv16)
    requires left == crc << 1 && (top <==> (crc ^ c) & 0x8000 != 0)
    ensures Feed(crc, Top(c)) == if top then left ^ 0x1021 else left
  {
    var h := Head(Top(c));
    var x := Xor(crc, h);
    XorIs(crc, h, x);
    InitStepXor(crc, c, h, x, top, left);
  }

  lemma {:induction false} FeedNext(crc: bv16, c: bv16, n: nat, next: bv16)
    requires n > 0 && next == c << 1
    ensures FeedAll(crc, Tops(c, n)) == FeedAll(Feed(crc, Top(c)), Tops(next, n - 1))
  {
  }

  lemma XorFromZero(a: bv16)
    ensures Xor(0, a) == a
  {
  }

  lemma EntryFeeds(i: bv8)
    ensures FeedAll(0, Tops((i as bv16) << 8, 8)) == Entry(i)
  {
    ByteTops(i, (i as bv16) << 8);
    UpdateFeeds(0, i);
    UpdateShifts(0, i);
    XorFromZero(Up(i));
  }

  class Crc {
    const table: array<bv16>

    ghost predicate Valid()
      reads table
    {
      table.Length == 256 && forall i :: 0 <= i < 256 ==> table[i] == Entry(i as bv8)
    }

    constructor ()
      ensures Valid() && fresh(table)
    {
      table := new bv16[256];
      new;
      for i := 0 to 256
        invariant forall k :: 0 <= k < i ==> table[k] == Entry(k as bv8)
      {
        var entry := FillEntry(i as bv8);
        table[i] := entry;
      }
    }

    /** One entry, bit by bit. */
    static method FillEntry(i: bv8) returns (crc: bv16)
      ensures crc == Entry(i)
    {
      crc := 0;
      var c := (i as bv16) << 8;
      EntryFeeds(i);
      for j := 0 to 8
        invariant FeedAll(crc, Tops(c, 8 - j)) == Entry(i)
      {
        FeedNext(crc, c, 8 - j, c << 1);
        InitStep(crc, c, (crc ^ c) & 0x8000 != 0, crc << 1);
        if (crc ^ c) & 0x8000 != 0 {
          crc := (crc << 1) ^ 0x1021;
        } else {
          crc := crc << 1;
        }
        c := c << 1;
      }
    }

    method UpdateCrc(crc: bv16, c: bv8) returns (r: bv16)
      requires Valid()
      ensures r == Update(crc, c)
    {
      var tmp := Index(crc, c);
      r := Xor(crc << 8, table[tmp as int]);
    }

    /** The checksum of the first `len` bytes; the length is a 16-bit word. */
    method GetCrc(buf: Bytes, len: nat) returns (crc: bv16)
      requires Valid() && len <= |buf| && len < 0x10000
      ensures crc == Checksum(buf[..len])
    {
      crc := 0;
      assert buf[..0] == [];
      for i := 0 to len
        invariant crc == Checksum(buf[..i])
      {
        assert buf[..i + 1] == buf[..i] + [buf[i]];
        RunConcat(0, buf[..i], [buf[i]]);
        assert Run(crc, [buf[i]]) == Update(crc, buf[i]);
        crc := UpdateCrc(crc, buf[i]);
      }
    }
  }
}
