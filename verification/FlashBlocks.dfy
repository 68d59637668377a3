/** The sparse programming plan of ez8dbg_flash.cpp: which blocks of a buffer write_flash sends. */
module FlashBlocks {

  import opened Ez8

  const BLOCK_SIZE := 8

  datatype Block = Block(start: nat, end: nat)

  predicate Filled(b: Byte) {
    b != 0xff
  }

  predicate Erased(buff: seq<Byte>, i: nat, j: nat)
    requires j <= |buff|
  {
    forall k :: i <= k < j ==> !Filled(buff[k])
  }

  predicate ErasedRun(buff: seq<Byte>, i: nat) {
    i + BLOCK_SIZE <= |buff| && Erased(buff, i, i + BLOCK_SIZE)
  }

  /** A block starts and ends on a programmed byte and holds no erased run of eight. */
  predicate IsBlock(buff: seq<Byte>, b: Block) {
    && b.start < b.end <= |buff|
    && Filled(buff[b.start]) && Filled(buff[b.end - 1])
    && forall i :: b.start <= i <= b.end - BLOCK_SIZE ==> !ErasedRun(buff, i)
  }

  /** `blocks` is the sparse cover of the first `hi` bytes: the blocks ascend, at least
      eight bytes apart, and every byte outside them is erased. */
  predicate Cover(buff: seq<Byte>, hi: nat, blocks: seq<Block>)
    requires hi <= |buff|
    decreases |blocks|
  {
    if blocks == [] then Erased(buff, 0, hi) else
      var n := |blocks| - 1;
      && IsBlock(buff, blocks[n])
      && blocks[n].end <= hi && Erased(buff, blocks[n].end, hi)
      && (n > 0 ==> blocks[n - 1].end + BLOCK_SIZE <= blocks[n].start)
      && Cover(buff, blocks[n].start, blocks[..n])
  }

  /** Programming the blocks one after another. */
  function ProgramBlocks(m: Image, address: nat, buff: seq<Byte>, blocks: seq<Block>): Image
    requires address + |buff| <= EZ8MEM_SIZE
    requires forall b :: b in blocks ==> b.start <= b.end <= |buff|
    decreases |blocks|
  {
    if blocks == [] then m else
      var n := |blocks| - 1;
      var b := blocks[n];
      Program(ProgramBlocks(m, address, buff, blocks[..n]), address + b.start, buff[b.start..b.end])
  }

  /** The commands that carry the blocks to the chip. */
  function Commands(address: nat, buff: seq<Byte>, blocks: seq<Block>): seq<(nat, seq<Byte>)>
    requires forall b :: b in blocks ==> b.start <= b.end <= |buff|
    decreases |blocks|
  {
    if blocks == [] then [] else
      var n := |blocks| - 1;
      var b := blocks[n];
      Commands(address, buff, blocks[..n]) + [(address + b.start, buff[b.start..b.end])]
  }

  lemma {:induction false} CoverInRange(buff: seq<Byte>, hi: nat, blocks: seq<Block>)
    requires hi <= |buff| && Cover(buff, hi, blocks)
    ensures forall b :: b in blocks ==> b.start <= b.end <= hi
    decreases |blocks|
  {
    hide IsBlock, Erased;
    if blocks != [] {
      var n := |blocks| - 1;
      assert blocks == blocks[..n] + [blocks[n]];
      assert blocks[n].start < blocks[n].end by { BlockRange(buff, blocks[n]); }
      CoverInRange(buff, blocks[n].start, blocks[..n]);
    }
  }

  lemma BlockRange(buff: seq<Byte>, b: Block)
    requires IsBlock(buff, b)
    ensures b.start < b.end <= |buff| && Filled(buff[b.start]) && Filled(buff[b.end - 1])
  {}

  /** Skipping erased bytes loses nothing: the blocks together program the whole prefix. */
  lemma {:induction false} ProgramCover(m: Image, address: nat, buff: seq<Byte>, hi: nat, blocks: seq<Block>)
    requires address + |buff| <= EZ8MEM_SIZE && hi <= |buff| && Cover(buff, hi, blocks)
    requires forall b :: b in blocks ==> b.start <= b.end <= |buff|
    ensures ProgramBlocks(m, address, buff, blocks) == Program(m, address, buff[..hi])
    decreases |blocks|
  {
    hide IsBlock, Erased, And, Program;
    if blocks == [] {
      ProgramErasedBytes(m, address, buff, 0, hi);
      ProgramNothing(m, address, buff);
    } else {
      var n := |blocks| - 1;
      var b := blocks[n];
      ProgramCover(m, address, buff, b.start, blocks[..n]);
      ProgramJoin(m, address, buff, b.start, b.end);
      ProgramErasedBytes(m, address, buff, b.end, hi);
    }
  }

  lemma ProgramNothing(m: Image, address: nat, buff: seq<Byte>)
    requires address + |buff| <= EZ8MEM_SIZE
    ensures Program(m, address, buff[..0]) == m
  {}

  lemma ProgramJoin(m: Image, address: nat, buff: seq<Byte>, i: nat, j: nat)
    requires address + |buff| <= EZ8MEM_SIZE && i <= j <= |buff|
    ensures Program(Program(m, address, buff[..i]), address + i, buff[i..j]) == Program(m, address, buff[..j])
  {
    hide And;
  }

  lemma ProgramErasedBytes(m: Image, address: nat, buff: seq<Byte>, i: nat, j: nat)
    requires address + |buff| <= EZ8MEM_SIZE && i <= j <= |buff| && Erased(buff, i, j)
    ensures Program(m, address, buff[..i]) == Program(m, address, buff[..j])
  {
    hide And;
    forall k | address + i <= k < address + j
      ensures And(m[k], buff[k - address]) == m[k]
    {
      assert !Filled(buff[k - address]);
      AndBlank(m[k]);
    }
  }

  /** On erased flash, programming a buffer stores exactly that buffer. */
  lemma ProgramOnErased(m: Image, address: nat, buff: seq<Byte>)
    requires address + |buff| <= EZ8MEM_SIZE
    requires forall i :: address <= i < address + |buff| ==> m[i] == 0xff
    ensures Program(m, address, buff) == Overlay(m, address, buff)
  {
    hide And;
    forall i | address <= i < address + |buff|
      ensures And(m[i], buff[i - address]) == buff[i - address]
    {
      AndBlank(buff[i - address]);
    }
  }

  /** There is only one sparse cover, so it is exactly what is sent. */
  lemma {:induction false} CoverUnique(buff: seq<Byte>, hi: nat, a: seq<Block>, b: seq<Block>)
    requires hi <= |buff| && Cover(buff, hi, a) && Cover(buff, hi, b)
    ensures a == b
    decreases |a|
  {
    hide IsBlock, Erased, Filled;
    if a != [] {
      LastEnd(buff, hi, a, b);
    }
    if b != [] {
      LastEnd(buff, hi, b, a);
      LastStart(buff, hi, a, b);
      LastStart(buff, hi, b, a);
      var n, m := |a| - 1, |b| - 1;
      assert Cover(buff, a[n].start, a[..n]) && Cover(buff, b[m].start, b[..m]) by {
        BlockRange(buff, a[n]);
        BlockRange(buff, b[m]);
      }
      CoverUnique(buff, a[n].start, a[..n], b[..m]);
      assert a == a[..n] + [a[n]] && b == b[..m] + [b[m]];
    }
  }

  lemma LastEnd(buff: seq<Byte>, hi: nat, a: seq<Block>, b: seq<Block>)
    requires hi <= |buff| && Cover(buff, hi, a) && Cover(buff, hi, b) && a != []
    ensures b != [] && a[|a| - 1].end <= b[|b| - 1].end
  {
    hide Filled, Cover;
    CoverLast(buff, hi, a);
    CoverLast(buff, hi, b);
    BlockRange(buff, a[|a| - 1]);
  }

  lemma CoverLast(buff: seq<Byte>, hi: nat, blocks: seq<Block>)
    requires hi <= |buff| && Cover(buff, hi, blocks)
    ensures blocks == [] ==> Erased(buff, 0, hi)
    ensures blocks != [] ==>
      var b := blocks[|blocks| - 1]; IsBlock(buff, b) && b.end <= hi && Erased(buff, b.end, hi)
    ensures blocks != [] ==> var b := blocks[|blocks| - 1];
      Erased(buff, if b.start >= BLOCK_SIZE then b.start - BLOCK_SIZE else 0, b.start)
  {
    hide IsBlock, Filled;
    if |blocks| == 1 {
      BlockRange(buff, blocks[0]);
      assert Cover(buff, blocks[0].start, blocks[..0]);
    } else if |blocks| > 1 {
      var n := |blocks| - 1;
      assert blocks[..n][n - 1] == blocks[n - 1];
    }
  }

  lemma LastStart(buff: seq<Byte>, hi: nat, a: seq<Block>, b: seq<Block>)
    requires hi <= |buff| && Cover(buff, hi, a) && Cover(buff, hi, b) && a != [] && b != []
    requires a[|a| - 1].end == b[|b| - 1].end
    ensures a[|a| - 1].start <= b[|b| - 1].start
  {
    hide Filled, Cover;
    CoverLast(buff, hi, a);
    CoverLast(buff, hi, b);
    BlockRange(buff, b[|b| - 1]);
    var s := a[|a| - 1].start;
    assert s >= BLOCK_SIZE ==> ErasedRun(buff, s - BLOCK_SIZE);
  }

  /** memnchr: the first programmed byte at or after `from`, or the end. */
  method MemNChr(s: seq<Byte>, from: nat) returns (p: nat)
    requires from <= |s|
    ensures from <= p <= |s| && Erased(s, from, p) && (p < |s| ==> Filled(s[p]))
  {
    p := from;
    while p < |s|
      invariant from <= p <= |s| && Erased(s, from, p)
    {
      if s[p] != 0xff {
        return;
      }
      p := p + 1;
    }
  }

  /** memchr for 0xff: the first erased byte at or after `from`, or the end. */
  method MemChr(s: seq<Byte>, from: nat) returns (p: nat)
    requires from <= |s|
    ensures from <= p <= |s| && (forall k :: from <= k < p ==> Filled(s[k])) && (p < |s| ==> !Filled(s[p]))
  {
    p := from;
    while p < |s|
      invariant from <= p <= |s| && forall k :: from <= k < p ==> Filled(s[k])
    {
      if s[p] == 0xff {
        return;
      }
      p := p + 1;
    }
  }

  /** No eight bytes of [lo, hi) in a row are erased. */
  predicate Dense(buff: seq<Byte>, lo: nat, hi: nat)
    requires hi <= |buff|
  {
    forall i :: lo <= i <= hi - BLOCK_SIZE ==> !ErasedRun(buff, i)
  }

  /** The inner loop of write_flash: the end of the block that begins at `start`, and where
      the next one begins. */
  method FindBlock(buff: seq<Byte>, start: nat) returns (end: nat, next: nat)
    requires start < |buff| && Filled(buff[start])
    ensures IsBlock(buff, Block(start, end))
    ensures end <= next <= |buff| && Erased(buff, end, next) && (next < |buff| ==> Filled(buff[next]))
    ensures next < |buff| ==> next - end >= BLOCK_SIZE
  {
    hide Filled, IsBlock;
    next := start;
    while true
      invariant start <= next < |buff| && Filled(buff[next]) && Dense(buff, start, next + 1)
      decreases |buff| - next
    {
      ghost var from := next;
      end := MemChr(buff, next);
      assert end > from;
      DenseFilled(buff, start, from, end);
      if end < |buff| {
        next := MemNChr(buff, end);
      } else {
        next := |buff|;
      }
      if !(end < |buff| && next < |buff| && next - end < BLOCK_SIZE) {
        BlockOf(buff, start, end);
        return;
      }
      DenseGap(buff, start, end, next);
    }
  }

  lemma DenseFilled(buff: seq<Byte>, lo: nat, from: nat, end: nat)
    requires lo <= from < end <= |buff| && Dense(buff, lo, from + 1)
    requires forall k :: from <= k < end ==> Filled(buff[k])
    ensures Dense(buff, lo, end)
  {
    forall i | lo <= i <= end - BLOCK_SIZE
      ensures !ErasedRun(buff, i)
    {
      if i + BLOCK_SIZE > from + 1 {
        var k := if i < from then from else i;
        assert Filled(buff[k]);
      }
    }
  }

  lemma DenseGap(buff: seq<Byte>, lo: nat, end: nat, next: nat)
    requires lo < end <= next < |buff| && next - end < BLOCK_SIZE && Dense(buff, lo, end)
    requires Filled(buff[end - 1]) && Filled(buff[next])
    ensures Dense(buff, lo, next + 1)
  {
    forall i | lo <= i <= next + 1 - BLOCK_SIZE
      ensures !ErasedRun(buff, i)
    {
      if i + BLOCK_SIZE > end {
        var k := if i + BLOCK_SIZE == next + 1 then next else end - 1;
        assert Filled(buff[k]);
      }
    }
  }

  lemma BlockOf(buff: seq<Byte>, start: nat, end: nat)
    requires start < end <= |buff| && Filled(buff[start]) && Filled(buff[end - 1]) && Dense(buff, start, end)
    ensures IsBlock(buff, Block(start, end))
  {}

  /** A block after a long enough gap, and the erased bytes behind it, extend a cover. */
  lemma CoverExtend(buff: seq<Byte>, blocks: seq<Block>, b: Block, next: nat)
    requires b.start <= b.end <= next <= |buff| && Cover(buff, b.start, blocks) && IsBlock(buff, b)
    requires blocks != [] ==> blocks[|blocks| - 1].end + BLOCK_SIZE <= b.start
    requires Erased(buff, b.end, next)
    ensures Cover(buff, next, blocks + [b])
  {
    hide IsBlock, Erased;
    assert (blocks + [b])[..|blocks|] == blocks;
  }

  lemma StepBlocks(m: Image, address: nat, buff: seq<Byte>, blocks: seq<Block>, b: Block)
    requires address + |buff| <= EZ8MEM_SIZE && b.start <= b.end <= |buff|
    requires forall c :: c in blocks ==> c.start <= c.end <= |buff|
    ensures forall c :: c in blocks + [b] ==> c.start <= c.end <= |buff|
    ensures Commands(address, buff, blocks + [b]) ==
            Commands(address, buff, blocks) + [(address + b.start, buff[b.start..b.end])]
    ensures ProgramBlocks(m, address, buff, blocks + [b]) ==
            Program(ProgramBlocks(m, address, buff, blocks), address + b.start, buff[b.start..b.end])
  {
    hide Program;
    assert (blocks + [b])[..|blocks|] == blocks;
  }
}
