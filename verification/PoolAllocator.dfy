/**
 The pool allocator of the JSON library: chunks in a linked list, of which the head serves requests
 from its top. Addresses and sizes are plain integers; what the base allocator answers is an input.
 */
module PoolAllocator {

  const WORD := 8
  const HEADER := 24
  const TWO_64 := 0x1_0000_0000_0000_0000

  /** A size in 64 bits. */
  type Size = x: nat | x < TWO_64

  function Add64(a: Size, b: Size): Size {
    if a + b < TWO_64 then a + b else a + b - TWO_64
  }

  /** A size rounded up to words, in 64 bits. */
  function Align(x: Size): Size {
    Add64(x, WORD - 1) / WORD * WORD
  }

  /** Rounding up works exactly up to the last size that leaves a word; beyond it gives nothing. */
  lemma Aligned(x: Size)
    ensures Align(x) % WORD == 0 && Align(x) <= TWO_64 - WORD && (Align(x) > 0 ==> Align(x) >= WORD)
    ensures x <= Align(x) < x + WORD <==> x <= TWO_64 - WORD
    ensures x > TWO_64 - WORD ==> Align(x) == 0
    ensures x % WORD == 0 ==> Align(x) == x
  {
  }

  type Memory = map<int, bv8>

  /** A byte of the memory; one never written reads as zero. */
  function Byte(m: Memory, a: int): bv8 {
    if a in m then m[a] else 0
  }

  /** `n` bytes copied from one place to another, byte by byte. */
  function Copied(m: Memory, dst: int, src: int, n: nat): Memory {
    if n == 0 then m
    else
      var k := n - 1;
      Copied(m, dst, src, k)[dst + k := Byte(Copied(m, dst, src, k), src + k)]
  }

  lemma {:induction false} CopiedReads(m: Memory, dst: int, src: int, n: nat, a: int)
    requires Apart(dst, n, src, n)
    ensures Byte(Copied(m, dst, src, n), a) == if dst <= a < dst + n then Byte(m, a - dst + src) else Byte(m, a)
  {
    if n > 0 {
      CopiedReads(m, dst, src, n - 1, a);
      CopiedReads(m, dst, src, n - 1, src + n - 1);
    }
  }

  /** `n` bytes at `a` read as those at `b` did before. */
  ghost predicate Moved(now: Memory, a: int, was: Memory, b: int, n: nat) {
    forall x :: a <= x < a + n ==> Byte(now, x) == Byte(was, x - a + b)
  }

  ghost predicate UnchangedOutside(now: Memory, was: Memory, a: int, n: nat) {
    forall x :: !(a <= x < a + n) ==> Byte(now, x) == Byte(was, x)
  }

  lemma {:induction false} CopiedIs(m: Memory, dst: int, src: int, n: nat)
    requires Apart(dst, n, src, n)
    ensures Moved(Copied(m, dst, src, n), dst, m, src, n) && UnchangedOutside(Copied(m, dst, src, n), m, dst, n)
  {
    forall x: int
      ensures dst <= x < dst + n ==> Byte(Copied(m, dst, src, n), x) == Byte(m, x - dst + src)
      ensures !(dst <= x < dst + n) ==> Byte(Copied(m, dst, src, n), x) == Byte(m, x)
    {
      CopiedReads(m, dst, src, n, x);
    }
  }

  datatype Block = Block(ptr: int, size: nat)

  predicate Apart(a: int, m: nat, b: int, n: nat) {
    a + m <= b || b + n <= a
  }

  predicate Aligned64(b: Block) {
    b.size > 0 && b.size % WORD == 0 && b.ptr % WORD == 0
  }

  ghost predicate Disjoint(blocks: set<Block>) {
    forall b, c :: b in blocks && c in blocks && b != c ==> Apart(b.ptr, b.size, c.ptr, c.size)
  }

  lemma DisjointWith(blocks: set<Block>, b: Block)
    requires Disjoint(blocks) && forall c :: c in blocks ==> Apart(c.ptr, c.size, b.ptr, b.size)
    ensures Disjoint(blocks + {b})
  {
  }

  class Chunk {
    const addr: int
    const capacity: Size
    const next: Chunk?
    var size: Size

    constructor (addr: int, capacity: Size, next: Chunk?)
      ensures this.addr == addr && this.capacity == capacity && this.next == next && size == 0
    {
      this.addr, this.capacity, this.next, size := addr, capacity, next, 0;
    }

    /** Where the next block goes. */
    function Top(): int
      reads this
    {
      addr + HEADER + size
    }

    /** Past the last byte that was asked for: the header and the capacity, summed in 64 bits. */
    function End(): int {
      addr + Add64(HEADER, capacity)
    }

    predicate Sound()
      reads this
    {
      && addr > 0 && addr % WORD == 0 && size % WORD == 0 && size <= capacity
      && HEADER + capacity < TWO_64 && End() <= TWO_64
    }

    /** The bytes lie behind the header, in the chunk's own memory. */
    predicate Holds(ptr: int, n: nat) {
      addr + HEADER <= ptr && ptr + n <= End()
    }

    /** The block lies in the part of the chunk that has been handed out. */
    predicate Has(b: Block)
      reads this
    {
      addr + HEADER <= b.ptr && b.ptr + b.size <= Top()
    }
  }

  /** `ok` when the chunk holds there the bytes of each request that is rounded up to `size`; else it holds none's. */
  ghost predicate Decides(c: Chunk, ptr: int, size: nat, ok: bool) {
    forall n: Size :: 0 < n && Align(n) == size ==> (ok <==> c.Holds(ptr, n))
  }

  lemma DecidesHeld(c: Chunk, ptr: int, size: nat)
    requires c.Holds(ptr, size) && size > 0
    ensures Decides(c, ptr, size, true)
  {
    forall n: Size | 0 < n && Align(n) == size ensures c.Holds(ptr, n) {
      Aligned(n);
    }
  }

  lemma DecidesPast(c: Chunk, ptr: int, size: nat)
    requires ptr + (if size == 0 then TWO_64 else size) - WORD >= c.End()
    ensures Decides(c, ptr, size, false)
  {
    forall n: Size | 0 < n && Align(n) == size ensures !c.Holds(ptr, n) {
      Aligned(n);
    }
  }

  /** Each chunk points to the next, the last to none. */
  predicate Chain(chunks: seq<Chunk>) {
    chunks == []
    || (chunks[0].next == (if |chunks| == 1 then null else chunks[1]) && Chain(chunks[1..]))
  }

  class Pool {
    var head: Chunk?
    const chunkCapacity: Size
    const userBuffer: Chunk?
    /** The contents of the memory. */
    var memory: Memory
    /** The chunks, from the head. */
    ghost var chunks: seq<Chunk>
    /** The blocks handed out and not given up. */
    ghost var live: set<Block>

    ghost predicate Linked()
      reads this`head, this`chunks
    {
      && (head == if chunks == [] then null else chunks[0])
      && Chain(chunks)
      && (userBuffer != null ==> chunks != [] && chunks[|chunks| - 1] == userBuffer)
      && (forall i :: 0 <= i < |chunks| - 1 ==> chunks[i] != userBuffer)
    }

    ghost predicate Separate()
      reads this`chunks, chunks
    {
      && (forall i :: 0 <= i < |chunks| ==> chunks[i].Sound())
      && (forall i, j :: 0 <= i < j < |chunks| ==>
            chunks[i] != chunks[j]
            && Apart(chunks[i].addr, HEADER + chunks[i].capacity, chunks[j].addr, HEADER + chunks[j].capacity))
    }

    /** The block lies inside a chunk. */
    ghost predicate Held(b: Block)
      reads this`chunks, chunks
    {
      exists i :: 0 <= i < |chunks| && chunks[i].Has(b)
    }

    /** Live blocks are aligned, each inside one chunk, and apart from each other. */
    ghost predicate Placed()
      reads this`chunks, this`live, chunks
    {
      && (forall b :: b in live ==> Aligned64(b))
      && (forall b :: b in live ==> Held(b))
      && Disjoint(live)
    }

    ghost predicate Valid()
      reads this`head, this`chunks, this`live, chunks
    {
      Linked() && Separate() && Placed()
    }

    constructor (chunkCapacity: Size, memory: Memory)
      ensures Valid() && chunks == [] && live == {}
    {
      this.chunkCapacity, head, userBuffer, this.memory := chunkCapacity, null, null, memory;
      chunks, live := [], {};
    }

    /** Over a buffer of the user's, which holds the first chunk. */
    constructor OverBuffer(buffer: int, size: Size, chunkCapacity: Size, memory: Memory)
      requires buffer > 0 && buffer % WORD == 0 && HEADER < size && buffer + size <= TWO_64
      ensures Valid() && |chunks| == 1 && fresh(chunks[0]) && live == {}
      ensures chunks[0].addr == buffer && HEADER + chunks[0].capacity == size
    {
      var first := new Chunk(buffer, size - HEADER, null);
      this.chunkCapacity, head, userBuffer, this.memory := chunkCapacity, first, first, memory;
      chunks, live := [first], {};
    }

    /** The capacity of the chunk that a request of aligned size `size` adds. */
    function NewCapacity(size: Size): Size {
      if chunkCapacity > size then chunkCapacity else size
    }

    /** The base allocator's answer to a request in 64 bits: null, or that much memory of its own. */
    ghost predicate Fits(base: int, capacity: Size)
      reads this`chunks
    {
      var bytes := Add64(HEADER, capacity);
      base != 0 ==>
        && base > 0 && base % WORD == 0 && base + bytes <= TWO_64
        && forall i :: 0 <= i < |chunks| ==> Apart(base, bytes, chunks[i].addr, HEADER + chunks[i].capacity)
    }

    method AddChunk(capacity: Size, base: int) returns (ok: bool)
      requires Valid() && Fits(base, capacity)
      modifies this`head, this`chunks
      ensures ok <==> base != 0
      ensures !ok || HEADER + capacity < TWO_64 ==> Valid()
      ensures !ok ==> head == old(head) && chunks == old(chunks)
      ensures ok ==>
                && chunks == [head] + old(chunks) && fresh(head)
                && head.addr == base && head.capacity == capacity && head.size == 0
    {
      if base == 0 {
        return false;
      }
      var chunk := new Chunk(base, capacity, head);
      head := chunk;
      chunks := [chunk] + chunks;
      ok := true;
      assert chunks[1..] == old(chunks);
      HeldBelow();
    }

    /** A new head leaves the blocks where they are. */
    twostate lemma HeldBelow()
      requires chunks != [] && chunks[1..] == old(chunks) && forall c :: c in old(chunks) ==> unchanged(c)
      ensures forall b :: old(Held(b)) ==> Held(b)
    {
      forall b | old(Held(b)) ensures Held(b) {
        var i :| 0 <= i < |old(chunks)| && old(chunks[i].Has(b));
        var c := old(chunks)[i];
        assert chunks[i + 1] == chunks[1..][i] == c && c in old(chunks) && unchanged(c);
      }
    }

    /** The head has room for a block of aligned size `size`. */
    predicate Room(size: Size)
      reads this, head
    {
      head != null && Add64(head.size, size) <= head.capacity
    }

    /** No live block reaches into what the head has not handed out. */
    lemma FreeApart(b: Block)
      requires Valid() && b in live && head != null
      ensures Apart(b.ptr, b.size, head.Top(), head.capacity - head.size)
    {
    }

    /** Handing out more of the head moves no other chunk's top, and its own up. */
    twostate lemma StillHeld(b: Block)
      requires old(Held(b)) && chunks == old(chunks)
      requires forall c :: c in chunks ==> c.size >= old(c.size)
      ensures Held(b)
    {
      var i :| 0 <= i < |chunks| && old(chunks[i].Has(b));
      assert chunks[i].Has(b);
    }

    /** The head has handed out more, within its capacity: the chunks stay sound and apart, and hold what they held. */
    twostate lemma Resized()
      requires old(Linked() && Separate()) && head != null && head == old(head) && chunks == old(chunks)
      requires old(head.size) <= head.size <= head.capacity && head.size % WORD == 0
      requires forall c :: c in chunks && c != head ==> unchanged(c)
      ensures Linked() && Separate() && forall b :: old(Held(b)) ==> Held(b)
    {
      forall c | c in chunks ensures c.size >= old(c.size) {
        if c != head {
          assert unchanged(c);
        }
      }
      forall i | 0 <= i < |chunks| ensures chunks[i].Sound() {
        assert old(chunks[i].Sound());
        if chunks[i] != head {
          assert chunks[i] in chunks && unchanged(chunks[i]);
        }
      }
      forall b | old(Held(b)) ensures Held(b) {
        StillHeld(b);
      }
    }

    /** Neither rounding to this size has wrapped nor does any sum that a request of it makes, in 64 bits. */
    predicate Serves(size: Size)
      reads this, head
    {
      && size > 0
      && (head != null ==> head.size + size < TWO_64)
      && (!Room(size) ==> HEADER + NewCapacity(size) < TWO_64)
    }

    /** Where a block of aligned size `size` goes: at the head's top, or behind the header of a new chunk. */
    function Place(size: Size, base: int): int
      reads this, head
    {
      if Room(size) then head.Top() else base + HEADER
    }

    /** Sees to it that the head has room for the aligned size, or that a sum wraps. */
    method Provide(size: Size, base: int) returns (ok: bool)
      requires Valid() && size % WORD == 0 && (!Room(size) ==> Fits(base, NewCapacity(size)))
      modifies this`head, this`chunks
      ensures ok <==> old(Room(size)) || base != 0
      ensures !ok ==> Valid() && head == old(head) && chunks == old(chunks)
      ensures ok ==>
                && head != null && head in chunks && head.Top() == old(Place(size, base))
                && chunks == (if old(Room(size)) then old(chunks) else [head] + old(chunks))
                && (head == old(head) || fresh(head))
      ensures ok && old(Serves(size)) ==> Valid() && head.size + size <= head.capacity
      ensures ok && !old(Serves(size)) ==>
                head.Top() + (if size == 0 then TWO_64 else size) - WORD >= head.End()
    {
      ok := true;
      if head == null || Add64(head.size, size) > head.capacity {
        ok := AddChunk(NewCapacity(size), base);
      }
      if ok {
        assert head == chunks[0];
      }
    }

    lemma FreeBlock(block: Block)
      requires Valid() && head != null && block.ptr == head.Top() && head.size + block.size <= head.capacity
      requires block.size > 0
      ensures Disjoint(live + {block}) && block !in live
      ensures forall b :: b in live ==> Apart(b.ptr, b.size, block.ptr, block.size)
    {
      forall b | b in live ensures Apart(b.ptr, b.size, block.ptr, block.size) {
        FreeApart(b);
      }
      DisjointWith(live, block);
    }

    /** The head hands out its next bytes; `served` when it has them and no sum wraps. */
    method TakeTop(size: Size, ghost served: bool) returns (ptr: int)
      requires head != null
      requires served ==> Valid() && head.size + size <= head.capacity && size > 0 && size % WORD == 0
      modifies head`size, this`live
      ensures ptr == old(head.Top()) && head.size == Add64(old(head.size), size)
      ensures served ==>
                && Valid() && live == old(live) + {Block(ptr, size)} && Block(ptr, size) !in old(live)
                && head.Has(Block(ptr, size)) && forall b :: b in old(live) ==> Apart(b.ptr, b.size, ptr, size)
      ensures !served ==> live == old(live)
    {
      ptr := head.Top();
      ghost var block := Block(ptr, size);
      if served {
        FreeBlock(block);
      }
      head.size := Add64(head.size, size);
      if served {
        Resized();
        live := live + {block};
        assert chunks[0].Has(block);
      }
    }

    /** A block of aligned size `size`, from the head or a new chunk. */
    method TakeAligned(size: Size, base: int) returns (ptr: int)
      requires Valid() && size % WORD == 0 && (!Room(size) ==> Fits(base, NewCapacity(size)))
      modifies this`head, this`chunks, this`live, head
      ensures ptr == 0 <==> !old(Room(size)) && base == 0
      ensures ptr == 0 ==> Valid() && live == old(live) && head == old(head) && chunks == old(chunks)
      ensures ptr != 0 ==>
                && head != null && head in chunks && ptr == old(Place(size, base))
                && chunks == (if old(Room(size)) then old(chunks) else [head] + old(chunks))
                && Decides(head, ptr, size, old(Serves(size)))
      ensures ptr != 0 && !old(Serves(size)) ==> live == old(live)
      ensures ptr != 0 && old(Serves(size)) ==>
                && Valid() && Block(ptr, size) !in old(live) && live == old(live) + {Block(ptr, size)}
                && head.Has(Block(ptr, size))
                && (forall b :: b in old(live) ==> Apart(b.ptr, b.size, ptr, size))
    {
      ghost var served := Serves(size);
      var ok := Provide(size, base);
      if !ok {
        return 0;
      }
      ptr := TakeTop(size, served);
      if served {
        DecidesHeld(head, ptr, size);
      } else {
        DecidesPast(head, ptr, size);
      }
    }

    /**
     A block of at least `size` bytes, `base` being what the base allocator answers if it is asked. The bytes
     are the head's own exactly when no sum wraps, and then no other live block's.
     */
    method Malloc(size: Size, base: int) returns (ptr: int)
      requires Valid() && (!Room(Align(size)) ==> Fits(base, NewCapacity(Align(size))))
      modifies this`head, this`chunks, this`live, head
      ensures ptr == 0 <==> size == 0 || (!old(Room(Align(size))) && base == 0)
      ensures ptr == 0 ==> Valid() && live == old(live) && head == old(head) && chunks == old(chunks)
      ensures ptr != 0 ==>
                && head != null && head in chunks && ptr == old(Place(Align(size), base))
                && chunks == (if old(Room(Align(size))) then old(chunks) else [head] + old(chunks))
                && Decides(head, ptr, Align(size), old(Serves(Align(size))))
      ensures ptr != 0 && !old(Serves(Align(size))) ==> live == old(live)
      ensures ptr != 0 && old(Serves(Align(size))) ==>
                && Valid() && Block(ptr, Align(size)) !in old(live)
                && live == old(live) + {Block(ptr, Align(size))} && head.Has(Block(ptr, Align(size)))
                && (forall b :: b in old(live) ==> Apart(b.ptr, b.size, ptr, Align(size)))
    {
      if size == 0 {
        return 0;
      }
      Aligned(size);
      ptr := TakeAligned(Align(size), base);
    }

    /** The greatest size is rounded up to nothing: the head's top is handed out, and not the bytes. */
    method MallocGreatest() returns (ptr: int)
      requires Valid() && head != null
      modifies this`head, this`chunks, this`live, head
      ensures ptr == old(head.Top()) != 0 && live == old(live) && chunks == old(chunks)
      ensures forall c :: c in chunks ==> !c.Holds(ptr, TWO_64 - 1)
    {
      Aligned(TWO_64 - 1);
      assert chunks[0] == head && chunks[0].Sound() && Room(0);
      assert forall c :: c in chunks ==> c.Sound();
      ptr := Malloc(TWO_64 - 1, 0);
    }

    /** The block is the last one handed out by the head. */
    predicate LastOfHead(b: Block)
      reads this`head, head
    {
      head != null && b.ptr == head.Top() - b.size
    }

    /** A live block that ends at the head's top is the head's own. */
    lemma LastIsInHead(b: Block)
      requires Valid() && b in live && LastOfHead(b)
      ensures head.Has(b)
    {
    }

    /** The head's last block and the free bytes after it are apart from every other block. */
    lemma ExtensionApart(b: Block, size: nat, c: Block)
      requires Valid() && b in live && c in live && b != c && LastOfHead(b)
      requires size >= b.size && head.size + (size - b.size) <= head.capacity
      ensures Apart(c.ptr, c.size, b.ptr, size)
    {
    }

    lemma Extension(b: Block, size: nat)
      requires Valid() && b in live && LastOfHead(b)
      requires size >= b.size && head.size + (size - b.size) <= head.capacity
      ensures head.Has(b) && Disjoint(live - {b} + {Block(b.ptr, size)})
    {
      LastIsInHead(b);
      forall c | c in live - {b} ensures Apart(c.ptr, c.size, b.ptr, size) {
        ExtensionApart(b, size, c);
      }
      DisjointWith(live - {b}, Block(b.ptr, size));
    }

    /** Extends the head's last block in place; `served` when the sum does not wrap. */
    method Extend(b: Block, size: Size, ghost served: bool)
      requires Valid() && b in live && LastOfHead(b) && b.size < size && size % WORD == 0
      requires served ==> head.size + (size - b.size) <= head.capacity
      modifies head`size, this`live
      ensures head.size == Add64(old(head.size), size - b.size)
      ensures if served then Valid() && live == old(live) - {b} + {Block(b.ptr, size)} && head.Has(Block(b.ptr, size))
              else live == old(live)
    {
      if served {
        Extension(b, size);
      }
      head.size := Add64(head.size, size - b.size);
      if served {
        Resized();
        live := live - {b} + {Block(b.ptr, size)};
        assert chunks[0].Has(Block(b.ptr, size));
      }
    }

    method Copy(dst: int, src: int, n: nat)
      modifies this`memory
      ensures memory == Copied(old(memory), dst, src, n)
    {
      for k := 0 to n
        invariant memory == Copied(old(memory), dst, src, k)
      {
        memory := memory[dst + k := Byte(memory, src + k)];
      }
    }

    /** Copies a block's contents to another and gives it up. */
    method MoveTo(b: Block, new': Block, ghost served: bool)
      requires served ==>
                 Valid() && b in live && new' in live && b.size < new'.size && Apart(b.ptr, b.size, new'.ptr, new'.size)
      modifies this`memory, this`live
      ensures if served then
                && Valid() && live == old(live) - {b}
                && Moved(memory, new'.ptr, old(memory), b.ptr, b.size)
                && UnchangedOutside(memory, old(memory), new'.ptr, new'.size)
              else live == old(live)
    {
      Copy(new'.ptr, b.ptr, b.size);
      if served {
        CopiedIs(old(memory), new'.ptr, b.ptr, b.size);
        live := live - {b};
      }
    }

    /** A new block for a live one, with its contents; the live one is given up. */
    method Relocate(b: Block, size: Size, base: int) returns (ptr: int)
      requires Valid() && b in live && b.size < size <= TWO_64 - WORD && size % WORD == 0
      requires !Room(size) ==> Fits(base, NewCapacity(size))
      modifies this`head, this`chunks, this`live, this`memory, head
      ensures ptr == 0 <==> !old(Room(size)) && base == 0
      ensures ptr == 0 ==> Valid() && live == old(live) && memory == old(memory) && chunks == old(chunks)
      ensures ptr != 0 && old(Serves(size)) ==>
                && Valid() && live == old(live) - {b} + {Block(ptr, size)} && Block(ptr, size) !in old(live)
                && Moved(memory, ptr, old(memory), b.ptr, b.size)
                && UnchangedOutside(memory, old(memory), ptr, size)
                && (forall c :: c in old(live) ==> Apart(c.ptr, c.size, ptr, size))
      ensures ptr != 0 ==> head != null && head in chunks && Decides(head, ptr, size, old(Serves(size)))
    {
      Aligned(size);
      ghost var (was, served) := (live, Serves(size));
      ptr := Malloc(size, base);
      if ptr != 0 {
        MoveTo(b, Block(ptr, size), served);
        if served {
          assert live == was + {Block(ptr, size)} - {b} == was - {b} + {Block(ptr, size)};
        }
      }
    }

    /** A live block has grown: in place, or to a new place that is apart from every live block. */
    ghost predicate Grown(b: Block, new': Block, was: (set<Block>, Memory), last: bool)
      reads this`live, this`memory
    {
      && live == was.0 - {b} + {new'}
      && Moved(memory, new'.ptr, was.1, b.ptr, b.size) && UnchangedOutside(memory, was.1, new'.ptr, new'.size)
      && (new'.ptr == b.ptr ==> last && memory == was.1)
      && (new'.ptr != b.ptr ==> forall c :: c in was.0 ==> Apart(c.ptr, c.size, new'.ptr, new'.size))
    }

    /** The head's last block has the bytes behind it that it lacks. */
    predicate Extends(b: Block, size: nat)
      reads this`head, head
    {
      LastOfHead(b) && head.size + (size - b.size) <= head.capacity
    }

    /** Growing in place with a sum that wraps leaves the chunk. */
    twostate lemma InPlace(p: (Block, nat, bool))
      requires old(Valid()) && head != null && head == old(head) && chunks == old(chunks) && p.0 in old(live)
      requires old(LastOfHead(p.0)) && p.0.size < p.1 < TWO_64
      requires if p.2 then head.size == old(head.size) + (p.1 - p.0.size) <= head.capacity
               else old(head.size) + (p.1 - p.0.size) >= TWO_64
      ensures head in chunks && Decides(head, p.0.ptr, p.1, p.2)
    {
      assert head == chunks[0] && old(head.Sound());
      if p.2 {
        DecidesHeld(head, p.0.ptr, p.1);
      } else {
        DecidesPast(head, p.0.ptr, p.1);
      }
    }

    /** More bytes for a live block: the head's last one grows in place if there is room. */
    method Grow(b: Block, size: Size, base: int) returns (ptr: int)
      requires Valid() && b in live && b.size < size <= TWO_64 - WORD && size % WORD == 0
      requires !Room(size) ==> Fits(base, NewCapacity(size))
      modifies this`head, this`chunks, this`live, this`memory, head
      ensures ptr == 0 ==> Valid() && live == old(live) && memory == old(memory) && chunks == old(chunks)
      ensures ptr != 0 && old(Extends(b, size) || Serves(size)) ==>
                Valid() && Grown(b, Block(ptr, size), old((live, memory)), old(LastOfHead(b)))
      ensures ptr != 0 ==>
                head != null && head in chunks && Decides(head, ptr, size, old(Extends(b, size) || Serves(size)))
    {
      if LastOfHead(b) {
        var increment := size - b.size;
        if Add64(head.size, increment) <= head.capacity {
          Aligned(size);
          ghost var served := head.size + increment < TWO_64;
          Extend(b, size, served);
          InPlace((b, size, served));
          return b.ptr;
        }
      }
      assert !Extends(b, size);
      ptr := Relocate(b, size, base);
    }

    /** The chunk that a live block lies in. */
    ghost function Home(b: Block): (c: Chunk)
      requires Held(b)
      reads this`chunks, chunks
      ensures c in chunks && c.Has(b)
    {
      var i :| 0 <= i < |chunks| && chunks[i].Has(b);
      chunks[i]
    }

    /** A live block is from now on smaller, for its caller. */
    ghost method Shrink(b: Block, size: nat)
      requires Valid() && b in live && 0 < size <= b.size && size % WORD == 0
      modifies this`live
      ensures Valid() && live == old(live) - {b} + {Block(b.ptr, size)}
    {
      var others, new' := live - {b}, Block(b.ptr, size);
      var i :| 0 <= i < |chunks| && chunks[i].Has(b);
      assert chunks[i].Has(new');
      DisjointWith(others, new');
      live := others + {new'};
    }

    /** A block is kept for fewer bytes; `home` is the chunk that it lies in. */
    ghost method Keep(b: Block, newSize: Size) returns (home: Chunk)
      requires Valid() && b in live && 0 < newSize && Align(newSize) <= b.size
      modifies this`live
      ensures home in chunks && (newSize <= TWO_64 - WORD <==> home.Holds(b.ptr, newSize))
      ensures newSize <= TWO_64 - WORD ==>
                Valid() && live == old(live) - {b} + {Block(b.ptr, Align(newSize))}
      ensures newSize > TWO_64 - WORD ==> live == old(live)
    {
      Aligned(newSize);
      home := Home(b);
      assert home.Sound();
      if newSize <= TWO_64 - WORD {
        Shrink(b, Align(newSize));
      }
    }

    /** A call to resize this block, none for null, gets the bytes it asks for. */
    predicate Resizes(originalPtr: int, originalSize: Size, newSize: Size)
      reads this, head
    {
      if originalPtr == 0 then Serves(Align(newSize))
      else
        var (b, size) := (Block(originalPtr, Align(originalSize)), Align(newSize));
        size > 0 && (size <= b.size || Extends(b, size) || Serves(size))
    }

    /**
     A live block resized: kept, extended in place, or copied to a new one. The result has the bytes asked for
     exactly when no sum wraps; then the old contents are there, no byte outside the result's block changes,
     and only the head's last block grows in place.
     */
    method Realloc(originalPtr: int, originalSize: Size, newSize: Size, base: int)
      returns (ptr: int, ghost home: Chunk?)
      requires Valid()
      requires originalPtr != 0 ==> Block(originalPtr, Align(originalSize)) in live
      requires !Room(Align(newSize)) ==> Fits(base, NewCapacity(Align(newSize)))
      modifies this`head, this`chunks, this`live, this`memory, head
      ensures ptr == 0 ==> Valid() && live == old(live) && memory == old(memory) && chunks == old(chunks)
      ensures newSize == 0 ==> ptr == 0
      ensures ptr != 0 ==>
                && home != null && home in chunks
                && (old(Resizes(originalPtr, originalSize, newSize)) <==> home.Holds(ptr, newSize))
      ensures ptr != 0 && old(Resizes(originalPtr, originalSize, newSize)) ==>
                var (b, new') := (Block(originalPtr, Align(originalSize)), Block(ptr, Align(newSize)));
                && Valid() && new' in live
                && (originalPtr == 0 ==> live == old(live) + {new'} && new' !in old(live) && memory == old(memory))
                && (originalPtr != 0 && new'.size <= b.size ==>
                      ptr == originalPtr && live == old(live) - {b} + {new'} && memory == old(memory))
                && (originalPtr != 0 && new'.size > b.size ==>
                      Grown(b, new', old((live, memory)), old(LastOfHead(b))))
    {
      home := null;
      if originalPtr == 0 {
        ptr := Malloc(newSize, base);
        home := head;
        return;
      }
      if newSize == 0 {
        return 0, home;
      }
      Aligned(originalSize);
      Aligned(newSize);
      var b, newAligned := Block(originalPtr, Align(originalSize)), Align(newSize);
      if b.size >= newAligned {
        home := Keep(b, newSize);
        return originalPtr, home;
      }
      ptr := Grow(b, newAligned, base);
      home := head;
    }

    /** No live block touches the header of any chunk, its own or another. */
    lemma HeadersUntouched(b: Block, j: nat)
      requires Valid() && b in live && j < |chunks|
      ensures Apart(b.ptr, b.size, chunks[j].addr, HEADER)
      ensures exists i :: 0 <= i < |chunks| && chunks[i].Has(b) && b.ptr + b.size <= chunks[i].End()
    {
    }

    /** Gives back the chunks before the user's buffer, whose addresses are returned in that order. */
    method FreeChunks() returns (freed: seq<int>)
      requires Linked()
      modifies this`head, this`chunks
      ensures Linked() && (head == null || head == userBuffer)
      ensures |freed| <= |old(chunks)| && chunks == old(chunks)[|freed|..]
      ensures forall k :: 0 <= k < |freed| ==> freed[k] == old(chunks)[k].addr
    {
      freed := [];
      while head != null && head != userBuffer
        invariant Linked()
        invariant |freed| <= |old(chunks)| && chunks == old(chunks)[|freed|..]
        invariant forall k :: 0 <= k < |freed| ==> freed[k] == old(chunks)[k].addr
        decreases |chunks|
      {
        var next := head.next;
        freed := freed + [head.addr];
        head := next;
        chunks := chunks[1..];
      }
    }

    /** Gives every chunk but the user's buffer back. */
    method Clear() returns (freed: seq<int>)
      requires Valid()
      modifies this`head, this`chunks, this`live, if userBuffer == null then {} else {userBuffer}
      ensures Valid() && live == {} && |chunks| == if userBuffer == null then 0 else 1
      ensures |freed| == |old(chunks)| - |chunks|
      ensures forall k :: 0 <= k < |freed| ==> freed[k] == old(chunks)[k].addr
      ensures userBuffer != null ==> chunks == [userBuffer] && userBuffer.size == 0
    {
      freed := FreeChunks();
      live := {};
      if head != null && head == userBuffer {
        assert |chunks| == 1 && chunks[0] == old(chunks)[|freed|];
        userBuffer.size := 0;
      }
    }
  }
}
