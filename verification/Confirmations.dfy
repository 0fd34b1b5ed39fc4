/**
 Confirming meters to a protocol bridge: the indices of the set bits of a 38-byte bitmap, kept in
 bytes, are confirmed by messages that carry a map index and a bitmap of ten bytes.
 */
module Confirmations {

  const BITMAP_LEN := 38
  const CONFIRMATION_LEN := 10
  /** The indices that one message covers. */
  const BLOCK := 80

  predicate Bit(b: bv8, k: nat)
    requires k < 8
  {
    b & Mask(k) != 0
  }

  /** One shifted left by `k`. */
  function Mask(k: nat): bv8
    requires k < 8
  {
    if k == 0 then 0x01 else if k == 1 then 0x02 else if k == 2 then 0x04 else if k == 3 then 0x08
    else if k == 4 then 0x10 else if k == 5 then 0x20 else if k == 6 then 0x40 else 0x80
  }

  /** The bit of each index in a byte, from the lowest on. */
  lemma BitShifts(b: bv8, k: nat)
    requires k < 8
    ensures Bit(b, k) <==> (b >> k) & 1 == 1
  {
  }

  /** The bit of an index, bytes in order and the lowest bit of each first. */
  predicate BitAt(bitmap: seq<bv8>, i: nat)
    requires i < 8 * |bitmap|
  {
    Bit(bitmap[i / 8], i % 8)
  }

  // The indices of a bitmap.

  /** The set bits below `n`, in order, each kept in a byte. */
  function Indices(bitmap: seq<bv8>, n: nat): seq<nat>
    requires n <= 8 * |bitmap|
  {
    if n == 0 then [] else Indices(bitmap, n - 1) + if BitAt(bitmap, n - 1) then [(n - 1) % 256] else []
  }

  lemma IndicesNext(bitmap: seq<bv8>, byteIndex: nat, bitIndex: nat, i: nat)
    requires byteIndex < |bitmap| && bitIndex < 8 && i == 8 * byteIndex + bitIndex
    ensures Indices(bitmap, i + 1)
            == Indices(bitmap, i) + if Bit(bitmap[byteIndex], bitIndex) then [(byteIndex * 8 + bitIndex) % 256] else []
  {
    assert i / 8 == byteIndex && i % 8 == bitIndex;
  }

  method GetIndexes(bitmap: seq<bv8>) returns (indexes: seq<nat>)
    requires |bitmap| == BITMAP_LEN
    ensures indexes == Indices(bitmap, 8 * BITMAP_LEN)
  {
    indexes := [];
    for byteIndex := 0 to BITMAP_LEN
      invariant indexes == Indices(bitmap, 8 * byteIndex)
    {
      for bitIndex := 0 to 8
        invariant indexes == Indices(bitmap, 8 * byteIndex + bitIndex)
      {
        IndicesNext(bitmap, byteIndex, bitIndex, 8 * byteIndex + bitIndex);
        if Bit(bitmap[byteIndex], bitIndex) {
          indexes := indexes + [(byteIndex * 8 + bitIndex) % 256];
        }
      }
    }
  }

  // The messages.

  datatype Message = Message(mapIndex: nat, bitmap: seq<bv8>)

  datatype Outcome = Sent(messages: seq<Message>) | OutOfBounds

  /** The messages confirm an index: the one of its block has its bit. */
  predicate Confirms(messages: seq<Message>, i: nat)
    requires forall k :: 0 <= k < |messages| ==> |messages[k].bitmap| == CONFIRMATION_LEN
  {
    i / BLOCK < |messages| && BitAt(messages[i / BLOCK].bitmap, i % BLOCK)
  }

  predicate Numbered(messages: seq<Message>) {
    forall k :: 0 <= k < |messages| ==> messages[k].mapIndex == k && |messages[k].bitmap| == CONFIRMATION_LEN
  }

  /** The block of the last index; block 0 before any. */
  function LastBlock(xs: seq<nat>): nat {
    if xs == [] then 0 else xs[|xs| - 1] / BLOCK
  }

  /** Each index is in the block of the one before or in the next; the first is measured from block 0. */
  predicate Adjoining(xs: seq<nat>) {
    xs == []
    || var (front, block) := (xs[..|xs| - 1], LastBlock(xs));
       Adjoining(front) && (block == LastBlock(front) || block == LastBlock(front) + 1)
  }

  lemma {:induction false} AdjoiningNext(xs: seq<nat>, x: nat)
    ensures Adjoining(xs + [x]) <==>
              Adjoining(xs) && (x / BLOCK == LastBlock(xs) || x / BLOCK == LastBlock(xs) + 1)
  {
  }

  lemma {:induction false} AdjoiningPrefix(xs: seq<nat>, k: nat)
    requires k <= |xs| && Adjoining(xs)
    ensures Adjoining(xs[..k])
    decreases |xs|
  {
    if k < |xs| {
      AdjoiningPrefix(xs[..|xs| - 1], k);
      assert xs[..|xs| - 1][..k] == xs[..k];
    } else {
      assert xs[..k] == xs;
    }
  }

  const CLEAR: seq<bv8> := [0, 0, 0, 0, 0, 0, 0, 0, 0, 0]

  /** The messages confirm exactly the listed indices; being numbered apart, each in one message only. */
  ghost predicate Exactly(messages: seq<Message>, xs: seq<nat>) {
    Numbered(messages) && forall i: nat :: Confirms(messages, i) <==> i in xs
  }

  method Memset(a: array<bv8>)
    requires a.Length == CONFIRMATION_LEN
    modifies a
    ensures a[..] == CLEAR
  {
    for k := 0 to a.Length
      invariant forall j :: 0 <= j < k ==> a[j] == 0
    {
      a[k] := 0;
    }
  }

  function WithBit(bitmap: seq<bv8>, offset: nat): (r: seq<bv8>)
    requires |bitmap| == CONFIRMATION_LEN && offset < BLOCK
    ensures |r| == CONFIRMATION_LEN
  {
    bitmap[offset / 8 := bitmap[offset / 8] | Mask(offset % 8)]
  }

  method SetBit(confirmationBitmap: array<bv8>, offset: nat)
    requires confirmationBitmap.Length == CONFIRMATION_LEN && offset < BLOCK
    modifies confirmationBitmap
    ensures confirmationBitmap[..] == WithBit(old(confirmationBitmap[..]), offset)
  {
    var byteIndex, bitIndex := offset / 8, offset % 8;
    confirmationBitmap[byteIndex] := confirmationBitmap[byteIndex] | Mask(bitIndex);
  }

  /** An index past the block of the message under way sends it and starts the next. */
  method Advance(confirmationBitmap: array<bv8>, messages: seq<Message>, mapIndex: nat, meterIndex: nat,
      ghost xs: seq<nat>)
    returns (messages': seq<Message>, mapIndex': nat)
    requires confirmationBitmap.Length == CONFIRMATION_LEN && mapIndex == |messages|
    requires Exactly(messages + [Message(mapIndex, confirmationBitmap[..])], xs)
    modifies confirmationBitmap
    ensures mapIndex' == |messages'| == if meterIndex / BLOCK > mapIndex then mapIndex + 1 else mapIndex
    ensures Exactly(messages' + [Message(mapIndex', confirmationBitmap[..])], xs)
  {
    messages', mapIndex' := messages, mapIndex;
    BlockOf(meterIndex, mapIndex);
    if meterIndex > mapIndex * 10 * 8 + 10 * 8 - 1 {
      messages' := messages + [Message(mapIndex, confirmationBitmap[..])];
      Memset(confirmationBitmap);
      mapIndex' := mapIndex + 1;
      ClearConfirms(messages', mapIndex', xs);
    }
  }

  /** One index more: the message under way is sent first when the index is past its block. */
  method ConfirmOne(confirmationBitmap: array<bv8>, messages: seq<Message>, mapIndex: nat, meterIndex: nat,
      ghost xs: seq<nat>)
    returns (ok: bool, messages': seq<Message>, mapIndex': nat)
    requires confirmationBitmap.Length == CONFIRMATION_LEN && mapIndex == |messages|
    requires Exactly(messages + [Message(mapIndex, confirmationBitmap[..])], xs)
    modifies confirmationBitmap
    ensures ok <==> meterIndex / BLOCK == mapIndex || meterIndex / BLOCK == mapIndex + 1
    ensures ok ==>
              && mapIndex' == |messages'| == meterIndex / BLOCK
              && Exactly(messages' + [Message(mapIndex', confirmationBitmap[..])], xs + [meterIndex])
  {
    messages', mapIndex' := Advance(confirmationBitmap, messages, mapIndex, meterIndex, xs);
    BlockOf(meterIndex, mapIndex');
    var offset := meterIndex - mapIndex' * 10 * 8;
    ok := 0 <= offset < 8 * CONFIRMATION_LEN;
    if ok {
      SetConfirms(messages', mapIndex', confirmationBitmap[..], offset, xs);
      SetBit(confirmationBitmap, offset);
    }
  }

  /**
   The confirmations of a list of indices. The writes stay inside the ten bytes exactly when the list is
   adjoining, and then the messages confirm exactly the listed indices.
   */
  method Confirm(xs: seq<nat>) returns (r: Outcome)
    ensures r.Sent? <==> Adjoining(xs)
    ensures r.Sent? ==> Exactly(r.messages, xs)
  {
    var messages: seq<Message> := [];
    var confirmationBitmap := new bv8[CONFIRMATION_LEN];
    Memset(confirmationBitmap);
    var mapIndex: nat := 0;
    NothingConfirmed();
    for k := 0 to |xs|
      invariant mapIndex == |messages| == LastBlock(xs[..k]) && Adjoining(xs[..k])
      invariant Exactly(messages + [Message(mapIndex, confirmationBitmap[..])], xs[..k])
    {
      OneMore(xs, k);
      var ok;
      ok, messages, mapIndex := ConfirmOne(confirmationBitmap, messages, mapIndex, xs[k], xs[..k]);
      if !ok {
        return OutOfBounds;
      }
    }
    assert xs[..|xs|] == xs;
    r := Sent(messages + [Message(mapIndex, confirmationBitmap[..])]);
  }

  lemma NothingConfirmed()
    ensures Exactly([Message(0, CLEAR)], [])
  {
  }

  lemma {:induction false} OneMore(xs: seq<nat>, k: nat)
    requires k < |xs| && Adjoining(xs[..k])
    ensures xs[..k + 1] == xs[..k] + [xs[k]] && LastBlock(xs[..k + 1]) == xs[k] / BLOCK
    ensures Adjoining(xs[..k + 1]) <==> xs[k] / BLOCK == LastBlock(xs[..k]) || xs[k] / BLOCK == LastBlock(xs[..k]) + 1
    ensures Adjoining(xs) ==> Adjoining(xs[..k + 1])
  {
    assert xs[..k + 1] == xs[..k] + [xs[k]];
    AdjoiningNext(xs[..k], xs[k]);
    if Adjoining(xs) {
      AdjoiningPrefix(xs, k + 1);
    }
  }

  /** A cleared bitmap adds nothing to the messages. */
  lemma ClearConfirms(messages: seq<Message>, mapIndex: nat, xs: seq<nat>)
    requires Exactly(messages, xs) && mapIndex == |messages|
    ensures Exactly(messages + [Message(mapIndex, CLEAR)], xs)
  {
  }

  lemma SetBits(bitmap: seq<bv8>, offset: nat, i: nat)
    requires |bitmap| == CONFIRMATION_LEN && offset < BLOCK && i < BLOCK
    ensures BitAt(WithBit(bitmap, offset), i) <==> i == offset || BitAt(bitmap, i)
  {
  }

  /** Setting one bit of the last message's bitmap confirms one index more. */
  lemma SetConfirms(messages: seq<Message>, mapIndex: nat, bitmap: seq<bv8>, offset: nat,
      xs: seq<nat>)
    requires mapIndex == |messages| && |bitmap| == CONFIRMATION_LEN && offset < BLOCK
    requires Exactly(messages + [Message(mapIndex, bitmap)], xs)
    ensures Exactly(messages + [Message(mapIndex, WithBit(bitmap, offset))], xs + [mapIndex * BLOCK + offset])
  {
    var was, now := messages + [Message(mapIndex, bitmap)], messages + [Message(mapIndex, WithBit(bitmap, offset))];
    assert forall k :: 0 <= k < mapIndex ==> was[k] == now[k] == messages[k];
    forall i: nat ensures Confirms(now, i) <==> i == mapIndex * BLOCK + offset || Confirms(was, i) {
      SetBits(bitmap, offset, i % BLOCK);
      InBlock(i, mapIndex, offset);
    }
  }

  lemma BlockOf(x: nat, block: nat)
    ensures x > block * 10 * 8 + 10 * 8 - 1 <==> x / BLOCK > block
    ensures 0 <= x - block * 10 * 8 < 8 * CONFIRMATION_LEN <==> x / BLOCK == block
  {
  }

  lemma InBlock(i: nat, block: nat, offset: nat)
    requires offset < BLOCK
    ensures i == block * BLOCK + offset <==> i / BLOCK == block && i % BLOCK == offset
  {
  }

  // From a bridge's bitmap.

  /** The set bits below `n`, in order. */
  function Positions(bitmap: seq<bv8>, n: nat): (r: seq<nat>)
    requires n <= 8 * |bitmap|
    ensures forall k :: 0 <= k < |r| ==> r[k] < n
  {
    if n == 0 then [] else Positions(bitmap, n - 1) + if BitAt(bitmap, n - 1) then [n - 1] else []
  }

  lemma {:induction false} PositionsAre(bitmap: seq<bv8>, n: nat, i: nat)
    requires n <= 8 * |bitmap|
    ensures i in Positions(bitmap, n) <==> i < n && BitAt(bitmap, i)
  {
    if n > 0 {
      PositionsAre(bitmap, n - 1, i);
    }
  }

  lemma {:induction false} IndicesBelow(bitmap: seq<bv8>, n: nat, i: nat)
    requires n <= 8 * |bitmap| && i in Indices(bitmap, n)
    ensures i < 256
  {
    if n > 0 && i in Indices(bitmap, n - 1) {
      IndicesBelow(bitmap, n - 1, i);
    }
  }

  lemma {:induction false} IndicesArePositions(bitmap: seq<bv8>, n: nat)
    requires n <= 8 * |bitmap| && forall i :: 256 <= i < n ==> !BitAt(bitmap, i)
    ensures Indices(bitmap, n) == Positions(bitmap, n)
  {
    if n > 0 {
      IndicesArePositions(bitmap, n - 1);
    }
  }

  /**
   The meters of a bitmap are confirmed, all within bounds and no others, exactly when every set bit is
   below 256 and each is in the block of the one before or in the next.
   */
  method ConfirmMeters(bitmap: seq<bv8>) returns (r: Outcome)
    requires |bitmap| == BITMAP_LEN
    ensures
      var set' := Positions(bitmap, 8 * BITMAP_LEN);
      r.Sent? && Exactly(r.messages, set') <==> Adjoining(set') && forall i :: i in set' ==> i < 256
  {
    var xs := GetIndexes(bitmap);
    ghost var set' := Positions(bitmap, 8 * BITMAP_LEN);
    r := Confirm(xs);
    if forall i :: i in set' ==> i < 256 {
      forall i | 256 <= i < 8 * BITMAP_LEN ensures !BitAt(bitmap, i) {
        PositionsAre(bitmap, 8 * BITMAP_LEN, i);
      }
      IndicesArePositions(bitmap, 8 * BITMAP_LEN);
    } else {
      var i :| i in set' && i >= 256;
      if i in xs {
        IndicesBelow(bitmap, 8 * BITMAP_LEN, i);
      }
      assert r.Sent? ==> !Confirms(r.messages, i);
    }
  }

  /** A bitmap with only bit 160 set. */
  function Lone(): (r: seq<bv8>)
    ensures |r| == BITMAP_LEN && forall k :: 0 <= k < BITMAP_LEN ==> r[k] == if k == 20 then 1 else 0
  {
    seq(BITMAP_LEN, k requires 0 <= k < BITMAP_LEN => if k == 20 then 1 else 0)
  }

  lemma {:induction false} LonePositions(n: nat)
    requires n <= 8 * BITMAP_LEN
    ensures Positions(Lone(), n) == if n <= 160 then [] else [160]
  {
    if n > 0 {
      LonePositions(n - 1);
      LoneBit(n - 1);
    }
  }

  lemma LoneBit(i: nat)
    requires i < 8 * BITMAP_LEN
    ensures BitAt(Lone(), i) <==> i == 160
  {
    MaskOne(i % 8);
  }

  lemma MaskOne(k: nat)
    requires k < 8
    ensures Bit(1, k) <==> k == 0
    ensures !Bit(0, k)
  {
  }

  /** It is not confirmed: the first index is two blocks on. */
  lemma LoneNotConfirmed()
    ensures |Lone()| == 38 && Positions(Lone(), 304) == [160] && !Adjoining([160])
  {
    LonePositions(8 * BITMAP_LEN);
  }
}
