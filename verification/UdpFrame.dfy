/**
 The frames of the UDP messaging: nine header bytes, a payload whose length the header announces,
 and two checksum bytes; and the handler that answers each frame it accepts.
 */
module UdpFrame {
  import opened CrcCcitt

  const GW_ADDR := 0
  const CMD := 1
  const SUBCMD := 2
  const DLEN_H := 7
  const DLEN_L := 8

  const HEADER_SIZE := 9
  const CRC_SIZE := 2
  const BUFFER_SIZE := 1024
  const MAX_PAYLOAD := BUFFER_SIZE - HEADER_SIZE - CRC_SIZE

  const GW_ADR: bv8 := 0x20
  const GET_GW_INFO: bv8 := 0x01
  const GET_GW_STATUS: bv8 := 0x02
  const WRITE_IQRF: bv8 := 0x03
  const IQRF_SPI_DATA: bv8 := 0x04
  const ACK: bv8 := 0x50
  const NAK: bv8 := 0x60

  // The codec.

  /** A string resized, zeros filling it up. */
  function Resized(s: Bytes, n: nat): (r: Bytes)
    ensures |r| == n
    ensures forall k :: 0 <= k < n ==> r[k] == if k < |s| then s[k] else 0
  {
    seq(n, k requires 0 <= k < n => if k < |s| then s[k] else 0)
  }

  /** The length as the header's 16-bit field can hold it. */
  function FieldLength(m: Bytes): (d: nat)
    ensures d < 0x10000
  {
    |m| % 0x10000
  }

  /** The number that a byte stands for, by counting. */
  function Value(b: bv8): nat
    decreases b
  {
    if b == 0 then 0 else Value(b - 1) + 1
  }

  /** The byte that stands for a number. */
  function Byte(n: nat): bv8
    requires n < 0x100
  {
    if n == 0 then 0 else Byte(n - 1) + 1
  }

  lemma {:induction false} ValueIs(b: bv8)
    ensures Value(b) == b as int
    decreases b
  {
    if b != 0 {
      ValueIs(b - 1);
    }
  }

  lemma {:induction false} ByteIs(n: nat)
    requires n < 0x100
    ensures Byte(n) as int == Value(Byte(n)) == n
  {
    if n > 0 {
      ByteIs(n - 1);
    }
    ValueIs(Byte(n));
  }

  lemma {:induction false} ByteOf(b: bv8)
    ensures Value(b) < 0x100 && Byte(Value(b)) == b
    decreases b
  {
    ValueIs(b);
    if b != 0 {
      ByteOf(b - 1);
    }
  }

  function Upper8(d: nat): bv8
    requires d < 0x10000
  {
    Byte(d / 0x100)
  }

  function Lower8(d: nat): bv8 { Byte(d % 0x100) }

  /** An empty frame over a header, with the gateway's address and a length. */
  function Stamped(h: Bytes, upper: bv8, lower: bv8): (r: Bytes)
    ensures |r| == HEADER_SIZE + CRC_SIZE
  {
    Resized(h, HEADER_SIZE + CRC_SIZE)[GW_ADDR := GW_ADR][DLEN_H := upper][DLEN_L := lower]
  }

  /** The frame before its checksum is written: header, payload, and room for the checksum. */
  function Unsigned(h: Bytes, m: Bytes): (s: Bytes)
    ensures |s| >= FieldLength(m) + HEADER_SIZE + CRC_SIZE
  {
    var d := FieldLength(m);
    var r := Stamped(h, Upper8(d), Lower8(d));
    if d > 0 then r[..HEADER_SIZE] + m + r[HEADER_SIZE..] else r
  }

  function Encode(h: Bytes, m: Bytes): Bytes {
    var s, d := Unsigned(h, m), FieldLength(m);
    var crc := Checksum(s[..(d + HEADER_SIZE) % 0x10000]);
    s[d + HEADER_SIZE := Upper(crc)][d + HEADER_SIZE + 1 := Lower(crc)]
  }

  datatype Decoded = Payload(message: Bytes) | TooShort | WrongAddress | TooLong | WrongCrc

  /** The length that a frame announces. */
  function Announced(f: Bytes): nat
    requires |f| >= HEADER_SIZE
  {
    Value(f[DLEN_H]) * 0x100 + Value(f[DLEN_L])
  }

  /** What lies in memory behind a frame: the terminator of a string, then anything. */
  predicate Behind(beyond: Bytes) {
    |beyond| >= BUFFER_SIZE && beyond[0] == 0
  }

  /**
   Nothing compares the announced length with the frame's own: `beyond` is what lies in memory
   after the frame, which a frame that announces too much makes the decoder read.
   */
  function Decode(f: Bytes, beyond: Bytes): (r: Decoded)
    requires Behind(beyond)
  {
    if |f| < HEADER_SIZE + CRC_SIZE then TooShort
    else if f[GW_ADDR] != GW_ADR then WrongAddress
    else if Announced(f) + HEADER_SIZE + CRC_SIZE > BUFFER_SIZE then TooLong
    else
      var (memory, end) := (f + beyond, HEADER_SIZE + Announced(f));
      var crc := Checksum(memory[..end]);
      if memory[end] != Upper(crc) || memory[end + 1] != Lower(crc) then WrongCrc
      else Payload(f[HEADER_SIZE..if end <= |f| then end else |f|])
  }

  /** The frame is as long as it announces. */
  predicate Exact(f: Bytes) {
    |f| >= HEADER_SIZE + CRC_SIZE && |f| == Announced(f) + HEADER_SIZE + CRC_SIZE
  }

  /** The header fields that encoding leaves as they were. */
  predicate Keeps(f: Bytes, h: Bytes)
    requires |f| >= HEADER_SIZE
  {
    forall k :: CMD <= k < DLEN_H ==> f[k] == if k < |h| then h[k] else 0
  }

  lemma UnsignedIs(h: Bytes, m: Bytes)
    requires |m| < 0x10000
    ensures
      var s := Unsigned(h, m);
      && |s| == |m| + HEADER_SIZE + CRC_SIZE && Announced(s) == |m| && s[GW_ADDR] == GW_ADR
      && Keeps(s, h) && s[HEADER_SIZE..HEADER_SIZE + |m|] == m
  {
    var d := |m|;
    Small(d);
    LengthIs(d);
    var t, s := Stamped(h, Upper8(d), Lower8(d)), Unsigned(h, m);
    StampedIs(h, Upper8(d), Lower8(d));
    assert s == t[..HEADER_SIZE] + m + t[HEADER_SIZE..] by {
      if m == [] {
        assert t == t[..HEADER_SIZE] + m + t[HEADER_SIZE..];
      }
    }
    HeaderIs(s, t);
  }

  /** The two bytes of a length hold it. */
  lemma LengthIs(d: nat)
    requires d < 0x10000
    ensures Value(Upper8(d)) * 0x100 + Value(Lower8(d)) == d
  {
    Small(d);
    ByteIs(d / 0x100);
    ByteIs(d % 0x100);
  }

  lemma StampedIs(h: Bytes, upper: bv8, lower: bv8)
    ensures
      var t := Stamped(h, upper, lower);
      t[GW_ADDR] == GW_ADR && Keeps(t, h) && t[DLEN_H] == upper && t[DLEN_L] == lower
  {
  }

  lemma Small(d: nat)
    requires d < 0x10000
    ensures d % 0x10000 == d && d / 0x100 < 0x100 && d / 0x100 * 0x100 + d % 0x100 == d
  {
  }

  lemma HeaderIs(s: Bytes, t: Bytes)
    requires |s| >= HEADER_SIZE && |t| >= HEADER_SIZE && s[..HEADER_SIZE] == t[..HEADER_SIZE]
    ensures forall k :: 0 <= k < HEADER_SIZE ==> s[k] == t[k]
    ensures Announced(s) == Announced(t)
  {
  }

  /** The frame is signed: its last two bytes are the checksum of the others. */
  predicate Signed(f: Bytes)
    requires |f| >= HEADER_SIZE + CRC_SIZE
  {
    var crc := Checksum(f[..|f| - CRC_SIZE]);
    f[|f| - CRC_SIZE] == Upper(crc) && f[|f| - CRC_SIZE + 1] == Lower(crc)
  }

  /** What a frame holds: the header's other bytes untouched, then the payload, then the checksum. */
  lemma EncodeIs(h: Bytes, m: Bytes)
    requires |m| <= 0xFFFF - HEADER_SIZE
    ensures
      var f := Encode(h, m);
      && |f| == |m| + HEADER_SIZE + CRC_SIZE && Announced(f) == |m| && f[GW_ADDR] == GW_ADR
      && Keeps(f, h) && f[HEADER_SIZE..HEADER_SIZE + |m|] == m && Signed(f)
  {
    var s, f := Unsigned(h, m), Encode(h, m);
    UnsignedIs(h, m);
    Small(|m|);
    Small(|m| + HEADER_SIZE);
    var crc := Checksum(s[..|m| + HEADER_SIZE]);
    assert f == s[|m| + HEADER_SIZE := Upper(crc)][|m| + HEADER_SIZE + 1 := Lower(crc)];
    Overwritten(s, f, |m| + HEADER_SIZE, Upper(crc), Lower(crc));
    HeaderIs(f, s);
    assert f[HEADER_SIZE..HEADER_SIZE + |m|] == f[..HEADER_SIZE + |m|][HEADER_SIZE..];
    assert s[HEADER_SIZE..HEADER_SIZE + |m|] == s[..HEADER_SIZE + |m|][HEADER_SIZE..];
  }

  lemma Overwritten(s: Bytes, f: Bytes, end: nat, x: bv8, y: bv8)
    requires HEADER_SIZE <= end && |s| == end + 2 && f == s[end := x][end + 1 := y]
    ensures f[..end] == s[..end] && |f| == |s| && f[end] == x && f[end + 1] == y
    ensures f[..HEADER_SIZE] == s[..HEADER_SIZE]
  {
  }

  lemma UpperFirst(crc: bv16)
    ensures (Upper(crc) as bv16 << 8) | Lower(crc) as bv16 == crc
  {
  }

  /** The header of a frame, byte by byte. */
  lemma HeaderBytes(f: Bytes, h: Bytes)
    requires |h| >= 7 && |f| >= 11 && Keeps(f, h)
    ensures f[1..7] == h[1..7] && f[7] as int * 0x100 + f[8] as int == Announced(f)
  {
    ValueIs(f[7]);
    ValueIs(f[8]);
  }

  lemma SignatureBytes(f: Bytes)
    requires |f| >= 11 && Signed(f)
    ensures (f[|f| - 2] as bv16 << 8) | f[|f| - 1] as bv16 == Checksum(f[..|f| - 2])
  {
    UpperFirst(Checksum(f[..|f| - 2]));
  }

  /** Each two-byte number has its upper byte first. */
  ghost predicate OnWire(f: Bytes, h: Bytes, m: Bytes, end: nat)
    requires |h| >= 7
  {
    && end == 9 + |m| && |f| == end + 2 && f[0] == 0x20 && f[1..7] == h[1..7]
    && f[7] as int * 0x100 + f[8] as int == |m| && f[9..end] == m
    && (f[end] as bv16 << 8) | f[end + 1] as bv16 == Checksum(f[..end])
  }

  lemma FrameOnWire(f: Bytes, h: Bytes, m: Bytes)
    requires |h| >= 7 && |f| == |m| + 11 && Announced(f) == |m| && f[0] == 0x20 && Keeps(f, h)
    requires f[9..9 + |m|] == m && Signed(f)
    ensures OnWire(f, h, m, 9 + |m|)
  {
    HeaderBytes(f, h);
    SignatureBytes(f);
  }

  /** A frame byte for byte. */
  lemma WireFormat(h: Bytes, m: Bytes)
    requires |h| >= 7 && |m| <= 1013
    ensures OnWire(Encode(h, m), h, m, 9 + |m|)
  {
    EncodeIs(h, m);
    FrameOnWire(Encode(h, m), h, m);
  }

  /** Decoding undoes encoding exactly for the payloads that fit a frame, whatever the header was before. */
  lemma DecodeEncode(h: Bytes, m: Bytes, beyond: Bytes)
    requires Behind(beyond)
    ensures Decode(Encode(h, m), beyond) == Payload(m) <==> |m| <= 1013
  {
    var f := Encode(h, m);
    PayloadFits(f, beyond);
    if |m| <= MAX_PAYLOAD {
      EncodeIs(h, m);
      SignedDecodes(f, m, beyond);
    }
  }

  /** What a frame is rejected for, in the order of the tests: its length, its address, the length that it announces. */
  lemma Rejections(f: Bytes, beyond: Bytes)
    requires Behind(beyond)
    ensures Decode(f, beyond).TooShort? <==> |f| < 11
    ensures Decode(f, beyond).WrongAddress? <==> |f| >= 11 && f[0] != 0x20
    ensures Decode(f, beyond).TooLong? <==> |f| >= 11 && f[0] == 0x20 && f[7] as int * 0x100 + f[8] as int > 1013
  {
    if |f| >= 11 {
      ValueIs(f[7]);
      ValueIs(f[8]);
    }
  }

  lemma PayloadFits(f: Bytes, beyond: Bytes)
    requires Behind(beyond)
    ensures Decode(f, beyond).Payload? ==> |Decode(f, beyond).message| <= MAX_PAYLOAD
  {
  }

  lemma SignedDecodes(f: Bytes, m: Bytes, beyond: Bytes)
    requires Behind(beyond) && HEADER_SIZE + |m| + CRC_SIZE == |f| <= BUFFER_SIZE
    requires Announced(f) == |m| && f[GW_ADDR] == GW_ADR && f[HEADER_SIZE..HEADER_SIZE + |m|] == m && Signed(f)
    ensures Decode(f, beyond) == Payload(m)
  {
    assert (f + beyond)[..HEADER_SIZE + |m|] == f[..HEADER_SIZE + |m|];
  }

  lemma DecodedSigned(f: Bytes, beyond: Bytes)
    requires Behind(beyond) && Decode(f, beyond).Payload? && Exact(f)
    ensures f[GW_ADDR] == GW_ADR && Signed(f) && Decode(f, beyond).message == f[HEADER_SIZE..|f| - CRC_SIZE]
    ensures |f| <= BUFFER_SIZE
  {
    assert (f + beyond)[..|f| - CRC_SIZE] == f[..|f| - CRC_SIZE];
  }

  /** Encoding the payload of an accepted frame over its own header gives the frame back. */
  lemma EncodeDecode(f: Bytes, beyond: Bytes)
    requires Behind(beyond) && Decode(f, beyond).Payload? && Exact(f)
    ensures Encode(f, Decode(f, beyond).message) == f
  {
    var m := Decode(f, beyond).message;
    DecodedSigned(f, beyond);
    EncodeIs(f, m);
    SameFrame(f, Encode(f, m));
  }

  /** A signed frame is determined by its header and payload. */
  lemma SameFrame(f: Bytes, g: Bytes)
    requires Exact(f) && Exact(g) && Signed(f) && Signed(g)
    requires Announced(f) == Announced(g) && f[GW_ADDR] == g[GW_ADDR] && Keeps(g, f)
    requires f[HEADER_SIZE..|f| - CRC_SIZE] == g[HEADER_SIZE..|g| - CRC_SIZE]
    ensures f == g
  {
    var end := |f| - CRC_SIZE;
    SameLength(f[DLEN_H], f[DLEN_L], g[DLEN_H], g[DLEN_L]);
    SameHeader(f, g);
    SameBytes(f, g, end);
  }

  lemma SameHeader(f: Bytes, g: Bytes)
    requires |f| >= HEADER_SIZE && |g| >= HEADER_SIZE && Keeps(g, f)
    requires f[GW_ADDR] == g[GW_ADDR] && f[DLEN_H] == g[DLEN_H] && f[DLEN_L] == g[DLEN_L]
    ensures f[..HEADER_SIZE] == g[..HEADER_SIZE]
  {
  }

  lemma SameBytes(f: Bytes, g: Bytes, end: nat)
    requires HEADER_SIZE <= end && |f| == |g| == end + CRC_SIZE
    requires f[..HEADER_SIZE] == g[..HEADER_SIZE] && f[HEADER_SIZE..end] == g[HEADER_SIZE..end]
    requires Signed(f) && Signed(g)
    ensures f == g
  {
    assert f[..end] == f[..HEADER_SIZE] + f[HEADER_SIZE..end];
    assert g[..end] == g[..HEADER_SIZE] + g[HEADER_SIZE..end];
    assert f == f[..end] + [f[end], f[end + 1]];
    assert g == g[..end] + [g[end], g[end + 1]];
  }

  lemma {:induction false} SameLength(h: bv8, l: bv8, h': bv8, l': bv8)
    requires Value(h) * 0x100 + Value(l) == Value(h') * 0x100 + Value(l')
    ensures h == h' && l == l'
  {
    ByteOf(h);
    ByteOf(l);
    ByteOf(h');
    ByteOf(l');
  }

  /** Altering any two adjacent bytes of an accepted frame, or one, but for its length field, is noticed. */
  lemma CorruptionNoticed(before: Bytes, x: bv8, y: bv8, x': bv8, y': bv8, after: Bytes,
      beyond: Bytes)
    requires Behind(beyond) && (x != x' || y != y')
    requires
      var f, g := before + [x, y] + after, before + [x', y'] + after;
      Exact(f) && Decode(f, beyond).Payload? && Announced(g) == Announced(f)
    ensures !Decode(before + [x', y'] + after, beyond).Payload?
  {
    var f, g := before + [x, y] + after, before + [x', y'] + after;
    PairChange(before, x, y, x', y', after);
    ExactChecksum(f, beyond);
    if g[GW_ADDR] == GW_ADR {
      ExactChecksum(g, beyond);
    }
  }

  lemma ExactChecksum(f: Bytes, beyond: Bytes)
    requires Behind(beyond) && Exact(f) && f[GW_ADDR] == GW_ADR && |f| <= BUFFER_SIZE
    ensures Decode(f, beyond).Payload? <==> Checksum(f) == 0
  {
    var end := |f| - CRC_SIZE;
    assert (f + beyond)[..end] == f[..end];
    assert f == f[..end] + [f[end], f[end + 1]];
    AppendedChecksum(f[..end], f[end], f[end + 1]);
  }

  /** The checks before the checksum's pass. */
  predicate Addressed(f: Bytes) {
    |f| >= HEADER_SIZE + CRC_SIZE && f[GW_ADDR] == GW_ADR && Announced(f) + HEADER_SIZE + CRC_SIZE <= BUFFER_SIZE
  }

  /**
   The decoder goes by bytes beyond the terminator: some of the payload that the frame announces is missing, or
   the whole checksum is and the terminator passes for its upper byte.
   */
  predicate ReadsPast(f: Bytes) {
    && Addressed(f)
    && var end := HEADER_SIZE + Announced(f);
       |f| < end || (|f| == end && Upper(Checksum(f)) == 0)
  }

  /** What follows a frame decides how it is decoded exactly when the decoder reads past it. */
  lemma ReadsWithin(f: Bytes)
    ensures (exists b, c :: Behind(b) && Behind(c) && Decode(f, b) != Decode(f, c)) <==> ReadsPast(f)
    ensures !ReadsPast(f) ==>
              forall b :: Behind(b) && Decode(f, b).Payload? ==> |Decode(f, b).message| == Announced(f)
  {
    if ReadsPast(f) {
      var b := ShortAccepted(f);
      var c := ShortRejected(f);
      assert Decode(f, b) != Decode(f, c);
    } else {
      forall b, c | Behind(b) && Behind(c) ensures Decode(f, b) == Decode(f, c) {
        if Addressed(f) {
          SameWithin(f, b, c);
        }
      }
    }
  }

  lemma SameWithin(f: Bytes, b: Bytes, c: Bytes)
    requires Behind(b) && Behind(c) && Addressed(f) && !ReadsPast(f)
    ensures Decode(f, b) == Decode(f, c)
    ensures Decode(f, b).Payload? ==> |Decode(f, b).message| == Announced(f)
  {
    var end := HEADER_SIZE + Announced(f);
    assert (f + b)[..end] == f[..end] == (f + c)[..end];
    assert f[..|f|] == f;
  }

  /** Any such frame is accepted when its missing bytes follow it; its payload is then what it has of the announced. */
  lemma ShortAccepted(f: Bytes) returns (beyond: Bytes)
    requires ReadsPast(f)
    ensures Behind(beyond) && Decode(f, beyond) == Payload(f[HEADER_SIZE..])
  {
    var missing := HEADER_SIZE + Announced(f) - |f|;
    var crc := Checksum(f + Blank(missing));
    assert missing == 0 ==> f + Blank(missing) == f;
    beyond := Follow(missing, Upper(crc), Lower(crc));
    assert (f + beyond)[..|f| + missing] == f + Blank(missing);
  }

  /** And rejected when the last of them is altered. */
  lemma ShortRejected(f: Bytes) returns (beyond: Bytes)
    requires ReadsPast(f)
    ensures Behind(beyond) && Decode(f, beyond) == WrongCrc
  {
    var missing := HEADER_SIZE + Announced(f) - |f|;
    var crc := Checksum(f + Blank(missing));
    assert missing == 0 ==> f + Blank(missing) == f;
    beyond := Follow(missing, Upper(crc), Lower(crc) ^ 1);
    assert (f + beyond)[..|f| + missing] == f + Blank(missing);
  }

  function Blank(n: nat): (r: Bytes)
    ensures |r| == n
  {
    seq(n, _ => 0)
  }

  /** What follows a frame that lacks its checksum and that many bytes before it. */
  function Follow(missing: nat, x: bv8, y: bv8): (r: Bytes)
    requires missing == 0 ==> x == 0
    ensures Behind(r)
  {
    Blank(missing) + [x, y] + Blank(BUFFER_SIZE)
  }

  /** A frame of eleven bytes that announces three is accepted, if the right bytes follow it, with two. */
  lemma ShortFrame() returns (f: Bytes, beyond: Bytes)
    ensures f == [GW_ADR, 0, 0, 0, 0, 0, 0, 0, 3, 0, 0] && Behind(beyond)
    ensures Announced(f) == 3 && Decode(f, beyond) == Payload([0, 0])
  {
    f := [GW_ADR, 0, 0, 0, 0, 0, 0, 0, 3, 0, 0];
    ValueIs(0);
    ValueIs(3);
    assert f[DLEN_H] == 0 && f[DLEN_L] == 3;
    beyond := ShortAccepted(f);
    assert f[HEADER_SIZE..] == [0, 0];
  }

  lemma Wrapped(n: nat)
    ensures 0 <= n % 0x10000 < 0x10000 && n % 0x10000 <= n
  {
  }

  // The handler.

  /** What is sent back for an accepted frame: header, then payload. */
  function Answer(f: Bytes, ident: Bytes, status: Bytes): (a: (Bytes, Bytes))
    requires |f| >= HEADER_SIZE
    ensures |a.0| >= HEADER_SIZE
  {
    var h := f[CMD := f[CMD] | 0x80];
    if f[CMD] == GET_GW_INFO then (h, ident)
    else if f[CMD] == GET_GW_STATUS then (h, status)
    else if f[CMD] == WRITE_IQRF then (h[SUBCMD := ACK], [])
    else (h[SUBCMD := NAK], [])
  }

  function Reply(f: Bytes, ident: Bytes, status: Bytes): Bytes
    requires |f| >= HEADER_SIZE
  {
    var a := Answer(f, ident, status);
    Encode(a.0, a.1)
  }

  /** What a reply tells: on command 1 the gateway's identification, on command 2 its status, else nothing. */
  function Told(command: bv8, ident: Bytes, status: Bytes): Bytes {
    match command
    case 0x01 => ident
    case 0x02 => status
    case _ => []
  }

  /** Every reply is a frame that decodes, names the request's packet, marks its command and tells what it asks for. */
  lemma ReplyIs(f: Bytes, ident: Bytes, status: Bytes, beyond: Bytes)
    requires Behind(beyond) && |f| >= HEADER_SIZE && |ident| <= MAX_PAYLOAD && |status| <= MAX_PAYLOAD
    ensures
      var r := Reply(f, ident, status);
      && Exact(r) && Decode(r, beyond) == Payload(Told(f[1], ident, status))
      && r[0] == 0x20 && r[1] == f[1] | 0x80
      && r[2] == (if f[1] == 0x01 || f[1] == 0x02 then f[2] else if f[1] == 0x03 then 0x50 else 0x60)
      && r[3..7] == f[3..7]
  {
    var a := Answer(f, ident, status);
    EncodeIs(a.0, a.1);
    DecodeEncode(a.0, a.1, beyond);
  }

  /** Only the header of what a frame is encoded over matters. */
  lemma SameHeaderEncodes(h: Bytes)
    requires |h| >= HEADER_SIZE
    ensures Encode(h[..HEADER_SIZE], []) == Encode(h, [])
  {
    EncodeIs(h, []);
    EncodeIs(h[..HEADER_SIZE], []);
    assert Keeps(Encode(h, []), Encode(h[..HEADER_SIZE], []));
    SameFrame(Encode(h[..HEADER_SIZE], []), Encode(h, []));
  }

  /** A channel, as far as what was sent through it. */
  class Channel {
    var sent: seq<Bytes>

    constructor ()
      ensures sent == []
    {
      sent := [];
    }

    method SendTo(message: Bytes)
      modifies this
      ensures sent == old(sent) + [message]
    {
      sent := sent + [message];
    }
  }

  class UdpMessaging {
    const crc: Crc
    var exclusiveChannel: Channel?
    /** The frames queued for sending. */
    var toUdp: seq<Bytes>

    ghost predicate Valid()
      reads crc.table
    {
      crc.Valid()
    }

    constructor ()
      ensures Valid() && exclusiveChannel == null && toUdp == []
    {
      crc := new Crc();
      exclusiveChannel, toUdp := null, [];
    }

    method SetExclusive(chan: Channel)
      modifies this`exclusiveChannel
      ensures exclusiveChannel == chan
    {
      exclusiveChannel := chan;
    }

    method ResetExclusive()
      modifies this`exclusiveChannel
      ensures exclusiveChannel == null
    {
      exclusiveChannel := null;
    }

    /** The frame without its checksum. */
    static method FillFrame(h: Bytes, message: Bytes) returns (udpMessage: Bytes)
      ensures udpMessage == Unsigned(h, message)
    {
      var dlen := FieldLength(message);
      udpMessage := Resized(h, HEADER_SIZE + CRC_SIZE);
      udpMessage := udpMessage[GW_ADDR := GW_ADR];
      udpMessage := udpMessage[DLEN_H := Upper8(dlen)];
      udpMessage := udpMessage[DLEN_L := Lower8(dlen)];
      if 0 < dlen {
        udpMessage := udpMessage[..HEADER_SIZE] + message + udpMessage[HEADER_SIZE..];
      }
    }

    method EncodeMessage(h: Bytes, message: Bytes) returns (udpMessage: Bytes)
      requires Valid()
      ensures udpMessage == Encode(h, message)
    {
      var dlen := |message| % 0x10000;
      udpMessage := FillFrame(h, message);
      Wrapped(dlen + HEADER_SIZE);
      var sum := crc.GetCrc(udpMessage, (dlen + HEADER_SIZE) % 0x10000);
      udpMessage := udpMessage[dlen + HEADER_SIZE := Upper(sum)];
      udpMessage := udpMessage[dlen + HEADER_SIZE + 1 := Lower(sum)];
    }

    method DecodeMessage(udpMessage: Bytes, beyond: Bytes) returns (r: Decoded)
      requires Valid() && Behind(beyond)
      ensures r == Decode(udpMessage, beyond)
    {
      if |udpMessage| < HEADER_SIZE + CRC_SIZE {
        return TooShort;
      }
      if udpMessage[GW_ADDR] != GW_ADR {
        return WrongAddress;
      }
      var dlen := Announced(udpMessage);
      if dlen + HEADER_SIZE + CRC_SIZE > BUFFER_SIZE {
        return TooLong;
      }
      var memory := udpMessage + beyond;
      var sum := crc.GetCrc(memory, dlen + HEADER_SIZE);
      if memory[HEADER_SIZE + dlen] != Upper(sum) || memory[HEADER_SIZE + dlen + 1] != Lower(sum) {
        return WrongCrc;
      }
      var end := if HEADER_SIZE + dlen <= |udpMessage| then HEADER_SIZE + dlen else |udpMessage|;
      r := Payload(udpMessage[HEADER_SIZE..end]);
    }

    /** Forwards a DPA packet to the network side. */
    method SendDpaMessageToUdp(message: Bytes)
      requires Valid()
      modifies this`toUdp
      ensures toUdp == old(toUdp) + [Encode(Resized([0, IQRF_SPI_DATA], HEADER_SIZE + CRC_SIZE), message)]
      ensures |message| <= 1013 ==> toUdp[|old(toUdp)|][1..7] == [0x04, 0, 0, 0, 0, 0]
    {
      if |message| <= 1013 {
        WireFormat(Resized([0, IQRF_SPI_DATA], HEADER_SIZE + CRC_SIZE), message);
      }
      var udpMessage := Resized([0, IQRF_SPI_DATA], HEADER_SIZE + CRC_SIZE);
      var encoded := EncodeMessage(udpMessage, message);
      toUdp := toUdp + [encoded];
    }

    /** One datagram: a rejected frame changes nothing, an accepted one queues exactly its reply. */
    method HandleMessageFromUdp(udpMessage: Bytes, beyond: Bytes, ident: Bytes, status: Bytes) returns (r: int)
      requires Valid() && Behind(beyond)
      modifies this`toUdp, if exclusiveChannel == null then {} else {exclusiveChannel}
      ensures !Decode(udpMessage, beyond).Payload? ==> r == -1 && toUdp == old(toUdp)
      ensures Decode(udpMessage, beyond).Payload? ==>
                && r == (if 0x01 <= udpMessage[1] <= 0x03 then 0 else -1)
                && toUdp == old(toUdp) + [Reply(udpMessage, ident, status)]
      ensures Decode(udpMessage, beyond).Payload? && |ident| <= MAX_PAYLOAD && |status| <= MAX_PAYLOAD ==>
                Decode(toUdp[|toUdp| - 1], beyond) == Payload(Told(udpMessage[1], ident, status))
      ensures exclusiveChannel != null ==>
                exclusiveChannel.sent
                == old(exclusiveChannel.sent)
                   + match Decode(udpMessage, beyond)
                     case Payload(message) => if udpMessage[1] == 0x03 then [message] else []
                     case _ => []
    {
      var decoded := DecodeMessage(udpMessage, beyond);
      if !decoded.Payload? {
        return -1;
      }
      var cmd := udpMessage[CMD];
      var udpResponse := udpMessage;
      udpResponse := udpResponse[CMD := udpResponse[CMD] | 0x80];
      if cmd == GET_GW_INFO {
        udpResponse := EncodeMessage(udpResponse, ident);
        r := 0;
      } else if cmd == GET_GW_STATUS {
        udpResponse := EncodeMessage(udpResponse, status);
        r := 0;
      } else if cmd == WRITE_IQRF {
        udpResponse := udpResponse[SUBCMD := ACK];
        SameHeaderEncodes(udpResponse);
        udpResponse := EncodeMessage(udpResponse[..HEADER_SIZE], []);
        r := 0;
        if exclusiveChannel != null {
          exclusiveChannel.SendTo(decoded.message);
        }
      } else {
        udpResponse := udpResponse[SUBCMD := NAK];
        udpResponse := EncodeMessage(udpResponse, []);
        r := -1;
      }
      toUdp := toUdp + [udpResponse];
      if |ident| <= MAX_PAYLOAD && |status| <= MAX_PAYLOAD {
        ReplyIs(udpMessage, ident, status, beyond);
      }
    }
  }
}
