/** The string pool (expat/xmlparse.c): strings are built one character at a time at the end of the
    newest block and, once finished, stay where they are until the pool is cleared. A block is an
    array; the two linked lists of blocks are sequences, first block first. */
module StringPool {
  const INIT_BLOCK_SIZE: nat := 1024
  const INT_MAX: nat := 0x7FFF_FFFF

  /** No object is larger than this. */
  const PTRDIFF_MAX: nat := 0x7FFF_FFFF_FFFF_FFFF

  /** Doubling in 32 bits, which wraps round. */
  function Doubled(n: nat): (r: int)
    ensures r == 2 * n || r < 0 || n > INT_MAX
  {
    var m := 2 * n % 0x1_0000_0000;
    if m <= INT_MAX then m else m - 0x1_0000_0000
  }

  /** A size passed on in 64 bits without a sign. */
  function Unsigned(n: int): (r: nat)
    ensures 0 <= n < 0x1_0000_0000_0000_0000 ==> r == n
    ensures -0x1_0000_0000 <= n < 0 ==> r > PTRDIFF_MAX
  {
    n % 0x1_0000_0000_0000_0000
  }

  type Block = array<char>

  /** A finished string, where it lies. */
  datatype Piece = Piece(block: Block, from: nat, upto: nat, text: string)

  ghost predicate NoDuplicates(list: seq<Block>) {
    forall i, j :: 0 <= i < j < |list| ==> list[i] != list[j]
  }

  /** Every block is in one of the two lists, once. */
  ghost predicate Apart(used: seq<Block>, free: seq<Block>) {
    && NoDuplicates(used) && NoDuplicates(free) && (forall b :: b in used ==> b !in free)
    && (forall b :: b in used ==> 0 < b.Length <= INT_MAX) && (forall b :: b in free ==> 0 < b.Length <= INT_MAX)
  }

  lemma ApartMore(x: Block, used: seq<Block>, free: seq<Block>)
    requires Apart(used, free) && x !in used && x !in free && 0 < x.Length <= INT_MAX
    ensures Apart([x] + used, free)
  {
  }

  lemma ApartTaken(used: seq<Block>, free: seq<Block>)
    requires Apart(used, free) && free != []
    ensures Apart(used, free[1..]) && free[0] !in used && free[0] !in free[1..] && 0 < free[0].Length <= INT_MAX
    ensures Apart([free[0]] + used, free[1..])
  {
    ApartMore(free[0], used, free[1..]);
  }

  lemma ApartSized(used: seq<Block>, free: seq<Block>)
    requires Apart(used, free) && used != []
    ensures 0 < used[0].Length <= INT_MAX
  {
  }

  /** A block in use is free again. */
  lemma ApartReturned(used: seq<Block>, free: seq<Block>)
    requires Apart(used, free) && used != []
    ensures Apart(used[1..], [used[0]] + free)
  {
    ApartTaken(free, used);
  }

  class Pool {
    /** Does the allocator grant request number `k`? */
    const grants: nat -> bool
    var asked: nat
    var blocks: seq<Block>
    var freeBlocks: seq<Block>
    /** Offsets into the first block; all are null, here 0, while there is none. */
    var start: nat
    var ptr: nat
    var end: nat
    ghost var finished: seq<Piece>

    ghost function Owned(): set<object>
      reads this
    {
      set b | b in blocks + freeBlocks
    }

    ghost predicate Shaped()
      reads this
    {
      && Apart(blocks, freeBlocks)
      && (if blocks == [] then start == ptr == end == 0 else start <= ptr <= end == blocks[0].Length)
    }

    /** A finished string still reads as it did, clear of the one in progress. */
    ghost predicate Kept(p: Piece)
      reads this, p.block
    {
      && p.block in blocks && p.from < p.upto <= p.block.Length && p.block[p.from..p.upto] == p.text
      && (p.block == blocks[0] ==> p.upto <= start)
    }

    ghost predicate Valid()
      reads this, set p | p in finished :: p.block
    {
      Shaped() && forall p :: p in finished ==> Kept(p)
    }

    /** The string in progress. */
    ghost function Text(): string
      requires Shaped()
      reads this, if blocks == [] then {} else {blocks[0]}
    {
      if blocks == [] then "" else blocks[0][start..ptr]
    }

    /** A free block is larger than the room for the string in progress. */
    ghost predicate FreeBlockFits()
      reads this
    {
      freeBlocks != [] && (blocks == [] || end - start < freeBlocks[0].Length)
    }

    /** Twice the room is still a size. */
    ghost predicate CanDouble()
      reads this
    {
      2 * (end - start) <= INT_MAX
    }

    /** A larger block can be had: one that is free, or one more from the allocator. */
    ghost predicate CanGrow()
      reads this
    {
      FreeBlockFits() || (CanDouble() && grants(asked))
    }

    /** Some request from number `k` on has been refused. */
    ghost predicate RefusedSince(k: nat)
      reads this
    {
      exists j :: k <= j < asked && !grants(j)
    }

    /** poolInit */
    constructor (grants: nat -> bool)
      ensures Valid() && Text() == "" && finished == [] && blocks == [] && freeBlocks == []
      ensures this.grants == grants && asked == 0
    {
      this.grants, asked := grants, 0;
      blocks, freeBlocks := [], [];
      start, ptr, end := 0, 0, 0;
      finished := [];
    }

    /** Memory for a block: none exactly where the size is no size or the request is not granted. */
    method Allocate(size: nat) returns (b: array?<char>)
      modifies this`asked
      ensures b != null ==> fresh(b) && b.Length == size
      ensures b != null <==> size <= PTRDIFF_MAX && grants(old(asked))
      ensures asked == old(asked) + (if size <= PTRDIFF_MAX then 1 else 0)
    {
      if size > PTRDIFF_MAX {
        return null;
      }
      asked := asked + 1;
      if !grants(asked - 1) {
        return null;
      }
      b := new char[size];
    }

    /** memcpy between different blocks. */
    method Copy(from: Block, at: nat, n: nat, to: Block)
      requires at + n <= from.Length && n <= to.Length && from != to
      modifies to
      ensures to[..n] == from[at..at + n]
    {
      for i := 0 to n
        invariant to[..i] == from[at..at + i]
      {
        to[i] := from[at + i];
      }
    }

    /** The string in progress moves to the start of `b`, which becomes the first block; `kept` are
        the blocks that stay in use behind it. */
    method MoveTo(b: Block, n: nat, kept: seq<Block>, left: seq<Block>)
      requires Valid() && ptr - start <= n <= end - start && n <= b.Length && blocks != []
      requires b != blocks[0] && b !in kept && Apart([b] + kept, left)
      requires forall p :: p in finished ==> p.block in kept
      modifies this`blocks, this`freeBlocks, this`start, this`ptr, this`end, b
      ensures Valid() && Text() == old(Text()) && blocks == [b] + kept && freeBlocks == left
      ensures start == 0 && ptr == old(ptr - start) && end == b.Length
    {
      hide Apart;
      ghost var text := Text();
      var from := blocks[0];
      Copy(from, start, n, b);
      assert b[..n][..ptr - start] == from[start..][..ptr - start];
      blocks, freeBlocks := [b] + kept, left;
      ptr := ptr - start;
      start := 0;
      end := b.Length;
    }

    /** poolGrow: the string in progress keeps its characters and gets room for more. Only it is
        ever moved: a block is given up only while no finished string lies in it. */
    method Grow() returns (ok: bool)
      requires Valid()
      modifies this`asked, this`blocks, this`freeBlocks, this`start, this`ptr, this`end, Owned()
      ensures Valid() && Text() == old(Text()) && (ok ==> ptr < end && end - start > old(end - start))
      ensures forall b :: b in Owned() ==> b in old(Owned()) || fresh(b)
      ensures !ok ==> start == old(start) && ptr == old(ptr) && end == old(end)
      ensures !ok ==> blocks == old(blocks) && freeBlocks == old(freeBlocks)
      ensures ok <==> old(CanGrow())
      ensures asked == old(asked) + (if old(!FreeBlockFits() && CanDouble()) then 1 else 0)
    {
      if freeBlocks != [] {
        if blocks == [] {
          TakeFirst();
          return true;
        }
        if end - start < freeBlocks[0].Length {
          GrowFromFree();
          return true;
        }
      }
      if blocks != [] && start == 0 {
        ok := GrowInPlace();
      } else {
        ok := GrowNew();
      }
    }

    /** The first block of a cleared pool is taken from the free ones. */
    method TakeFirst()
      requires Valid() && blocks == [] && freeBlocks != []
      modifies this`blocks, this`freeBlocks, this`start, this`ptr, this`end
      ensures Valid() && Text() == "" && blocks == old(freeBlocks[..1]) && freeBlocks == old(freeBlocks[1..])
      ensures start == ptr == 0 < end
    {
      ApartTaken(blocks, freeBlocks);
      blocks, freeBlocks := [freeBlocks[0]], freeBlocks[1..];
      start, ptr, end := 0, 0, blocks[0].Length;
    }

    /** A larger free block becomes the first one. */
    method GrowFromFree()
      requires Valid() && blocks != [] && freeBlocks != [] && end - start < freeBlocks[0].Length
      modifies this`blocks, this`freeBlocks, this`start, this`ptr, this`end, freeBlocks[0]
      ensures Valid() && Text() == old(Text()) && ptr < end && end - start > old(end - start)
      ensures blocks == [old(freeBlocks[0])] + old(blocks) && freeBlocks == old(freeBlocks[1..])
    {
      ApartTaken(blocks, freeBlocks);
      MoveTo(freeBlocks[0], end - start, blocks, freeBlocks[1..]);
    }

    /** The first block doubled where it is; it holds nothing but the string in progress. */
    method GrowInPlace() returns (ok: bool)
      requires Valid() && blocks != [] && start == 0
      modifies this`asked, this`blocks, this`freeBlocks, this`start, this`ptr, this`end
      ensures Valid() && Text() == old(Text()) && freeBlocks == old(freeBlocks)
      ensures ok ==> blocks != [] && fresh(blocks[0]) && blocks[1..] == old(blocks[1..]) && start == 0 && ptr < end && end == 2 * old(end)
      ensures !ok ==> start == old(start) && ptr == old(ptr) && end == old(end) && blocks == old(blocks)
      ensures ok <==> old(CanDouble() && grants(asked))
      ensures asked == old(asked) + (if old(CanDouble()) then 1 else 0)
    {
      ApartSized(blocks, freeBlocks);
      var blockSize := Doubled(end);
      if blockSize < 0 {
        return false;
      }
      var temp := Allocate(Unsigned(blockSize));
      if temp == null {
        return false;
      }
      assert blocks == [blocks[0]] + blocks[1..];
      ApartMore(temp, blocks[1..], freeBlocks);
      MoveTo(temp, end, blocks[1..], freeBlocks);
      return true;
    }

    /** A new block at least twice as large as the room for the string in progress. */
    method GrowNew() returns (ok: bool)
      requires Valid() && (blocks == [] ==> freeBlocks == [])
      modifies this`asked, this`blocks, this`freeBlocks, this`start, this`ptr, this`end
      ensures Valid() && Text() == old(Text()) && freeBlocks == old(freeBlocks)
      ensures ok ==> blocks != [] && fresh(blocks[0]) && blocks[1..] == old(blocks) && ptr < end && end - start > old(end - start)
      ensures !ok ==> start == old(start) && ptr == old(ptr) && end == old(end) && blocks == old(blocks)
      ensures ok <==> old(CanDouble() && grants(asked))
      ensures asked == old(asked) + (if old(CanDouble()) then 1 else 0)
    {
      if blocks != [] { ApartSized(blocks, freeBlocks); }
      var blockSize: int := end - start;
      if blockSize < INIT_BLOCK_SIZE {
        blockSize := INIT_BLOCK_SIZE;
      } else {
        blockSize := Doubled(blockSize);
      }
      var tem := Allocate(Unsigned(blockSize));
      if tem == null {
        return false;
      }
      ApartMore(tem, blocks, freeBlocks);
      if blocks == [] {
        blocks, end := [tem], tem.Length;
      } else {
        MoveTo(tem, ptr - start, blocks, freeBlocks);
      }
      return true;
    }

    /** poolAppendChar */
    method AppendChar(c: char) returns (ok: bool)
      requires Valid()
      modifies this`asked, this`blocks, this`freeBlocks, this`start, this`ptr, this`end, Owned()
      ensures Valid() && Text() == old(Text()) + if ok then [c] else []
      ensures ok <==> old(ptr < end || CanGrow())
      ensures asked == old(asked) + (if old(ptr == end && !FreeBlockFits() && CanDouble()) then 1 else 0)
      ensures ok ==> end - ptr >= old(end - ptr) - 1
      ensures !ok ==> RefusedSince(old(asked)) || 2 * |Text()| > INT_MAX
      ensures forall b :: b in Owned() ==> b in old(Owned()) || fresh(b)
    {
      hide Apart;
      if ptr == end {
        ok := Grow();
        if !ok {
          return false;
        }
      }
      Put(c);
      return true;
    }

    /** A character into the room that is left. */
    method Put(c: char)
      requires Valid() && ptr < end
      modifies this`ptr, blocks[0]
      ensures Valid() && ptr == old(ptr) + 1 && Text() == old(Text()) + [c]
    {
      hide Apart;
      blocks[0][ptr] := c;
      ptr := ptr + 1;
    }

    /** poolFinish: the string in progress is handed out and stays where it is. */
    method Finish()
      requires Valid()
      modifies this`start, this`finished
      ensures Valid() && Text() == ""
      ensures if old(Text()) == "" then finished == old(finished)
        else finished == old(finished) + [Piece(blocks[0], old(start), ptr, old(Text()))]
    {
      if start < ptr {
        finished := finished + [Piece(blocks[0], start, ptr, Text())];
      }
      start := ptr;
    }

    /** poolDiscard */
    method Discard()
      requires Valid()
      modifies this`ptr
      ensures Valid() && Text() == ""
    {
      ptr := start;
    }

    /** poolChop */
    method Chop()
      requires Valid() && Text() != ""
      modifies this`ptr
      ensures Valid() && Text() == old(Text())[..|old(Text())| - 1]
    {
      ptr := ptr - 1;
    }

    /** poolClear: all blocks are free again and nothing is finished or in progress. */
    method Clear()
      requires Valid()
      modifies this
      ensures Valid() && Text() == "" && blocks == [] && finished == [] && Owned() == old(Owned())
    {
      if freeBlocks == [] {
        freeBlocks := blocks;
      } else {
        var p := blocks;
        while p != []
          invariant Apart(p, freeBlocks) && (set b: object | b in p + freeBlocks) == old(Owned())
          decreases |p|
        {
          ApartReturned(p, freeBlocks);
          freeBlocks, p := [p[0]] + freeBlocks, p[1..];
        }
      }
      blocks, start, ptr, end, finished := [], 0, 0, 0, [];
    }

    /** poolCopyString: the string and its terminator are finished; what was finished before stays. */
    method CopyString(s: string) returns (ok: bool)
      requires Valid()
      modifies this, Owned()
      ensures Valid() && |finished| == |old(finished)| + (if ok then 1 else 0) && finished[..|old(finished)|] == old(finished)
      ensures ok ==> Text() == "" && finished[|old(finished)|].text == old(Text()) + s + ['\0']
      ensures |s| < old(end - ptr) ==> ok && asked == old(asked)
      ensures !ok ==> RefusedSince(old(asked)) || 2 * (|old(Text())| + |s| + 1) > INT_MAX
      ensures forall b :: b in Owned() ==> b in old(Owned()) || fresh(b)
    {
      ok := AppendString(s + ['\0']);
      if ok {
        assert Text() == old(Text()) + s + ['\0'];
        Finish();
      }
    }

    /** poolAppendString */
    method AppendString(s: string) returns (ok: bool)
      requires Valid()
      modifies this`asked, this`blocks, this`freeBlocks, this`start, this`ptr, this`end, Owned()
      ensures Valid() && (ok ==> Text() == old(Text()) + s)
      ensures |s| <= old(end - ptr) ==> ok && asked == old(asked)
      ensures !ok ==> RefusedSince(old(asked)) || 2 * (|old(Text())| + |s|) > INT_MAX
      ensures forall b :: b in Owned() ==> b in old(Owned()) || fresh(b)
    {
      hide Apart, CanGrow, FreeBlockFits, CanDouble;
      for i := 0 to |s|
        invariant Valid() && finished == old(finished) && Text() == old(Text()) + s[..i] && asked >= old(asked)
        invariant |s| <= old(end - ptr) ==> asked == old(asked) && end - ptr >= |s| - i
        invariant forall b :: b in Owned() ==> b in old(Owned()) || fresh(b)
      {
        ok := AppendChar(s[i]);
        if !ok {
          return false;
        }
      }
      assert s[..|s|] == s;
      return true;
    }

    /** poolAppend when utf8_toUtf8 converts: as much as fits is copied, without trailing
        continuation bytes, and the pool grows until everything is there. */
    method Append(input: string) returns (ok: bool)
      requires Valid()
      modifies this`asked, this`blocks, this`freeBlocks, this`start, this`ptr, this`end, Owned()
      ensures Valid() && (ok ==> Text() == old(Text()) + input)
      ensures 0 < |input| <= old(end - ptr) ==> ok && asked == old(asked)
      ensures !ok ==> RefusedSince(old(asked)) || 2 * (|old(Text())| + |input|) > INT_MAX
      ensures forall b :: b in Owned() ==> b in old(Owned()) || fresh(b)
    {
      hide Apart;
      if blocks == [] {
        ok := Grow();
        if !ok { return false; }
      }
      var from := 0;
      while true
        invariant Valid() && blocks != [] && finished == old(finished)
        invariant from <= |input| && Text() == old(Text()) + input[..from] && asked >= old(asked)
        invariant |input| <= old(end - ptr) && old(blocks) != [] ==> asked == old(asked) && end - ptr >= |input| - from
        invariant forall b :: b in Owned() ==> b in old(Owned()) || fresh(b)
        decreases INT_MAX - (end - start)
      {
        ApartSized(blocks, freeBlocks);
        var done;
        from, done := Convert(input, from);
        if done {
          assert input[..from] == input;
          return true;
        }
        ok := Grow();
        if !ok { return false; }
      }
    }

    /** utf8_toUtf8 into the room that is left. */
    method Convert(input: string, from0: nat) returns (from: nat, done: bool)
      requires Valid() && blocks != [] && from0 <= |input|
      modifies this`ptr, blocks[0]
      ensures Valid() && from0 <= from <= |input| && Text() == old(Text()) + input[from0..from] && (done <==> from == |input|)
      ensures |input| - from0 <= old(end - ptr) ==> done
      ensures blocks == old(blocks) && freeBlocks == old(freeBlocks) && end == old(end) && start == old(start)
    {
      hide Apart;
      var lim := |input|;
      if lim - from0 > end - ptr {
        lim := from0 + (end - ptr);
        while lim > from0 && IsContinuation(input[lim - 1])
          invariant from0 <= lim <= from0 + (end - ptr)
        {
          lim := lim - 1;
        }
      }
      from := from0;
      while from < lim
        invariant Valid() && from0 <= from <= lim && end - ptr >= lim - from
        invariant Text() == old(Text()) + input[from0..from]
      {
        Put(input[from]);
        from := from + 1;
      }
      done := lim == |input|;
    }
  }

  predicate IsContinuation(c: char) {
    0x80 <= c as int % 0x100 < 0xC0
  }
}
