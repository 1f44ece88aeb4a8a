/** The mounted file system: the table and the directory updated in place. */
module FileSystem {
  import opened Fat
  import opened Layout
  import opened Volume
  import opened Wrappers

  class FileSystem {
    const blocks: nat
    const fat: array<nat>
    const files: array<File>
    var total: nat

    ghost function Value(): Vol
      reads this, fat, files
    {
      Vol(fat[..], blocks, files[..], total)
    }

    constructor (blocks: nat, fat: array<nat>, files: array<File>, total: nat)
      ensures this.blocks == blocks && this.fat == fat && this.files == files && this.total == total
    {
      this.blocks, this.fat, this.files, this.total := blocks, fat, files, total;
    }

    /** The first free block, or None when the scan finds none. */
    method FirstFreeBlock() returns (free: Option<nat>)
      requires Sized(Value())
      ensures free.None? <==> FreeList(fat[..], blocks) == []
      ensures free.Some? ==> free.value == FreeList(fat[..], blocks)[0]
    {
      hide FreeList;
      for j := 0 to blocks
        invariant forall b :: 0 <= b < j ==> fat[b] != 0
      {
        if fat[j] == 0 {
          assert j in FreeList(fat[..], blocks);
          HeadIsLeast(fat[..], blocks);
          return Some(j);
        }
      }
      assert forall b: nat :: b !in FreeList(fat[..], blocks);
      if FreeList(fat[..], blocks) != [] {
        assert FreeList(fat[..], blocks)[0] in FreeList(fat[..], blocks);
      }
      return None;
    }

    /** Walks to the end of the chain c that starts at the block. */
    method LastBlock(start: nat, ghost c: seq<nat>) returns (block: nat)
      requires blocks <= fat.Length && blocks <= EOC && IsChain(fat[..], blocks, c) && c[0] == start
      ensures block == c[|c| - 1]
    {
      block := start;
      ghost var k := 0;
      while fat[block] != EOC
        invariant 0 <= k < |c| && block == c[k]
        decreases |c| - k
      {
        EndsOnce(fat[..], blocks, c, k);
        block := fat[block];
        k := k + 1;
      }
      EndsOnce(fat[..], blocks, c, k);
    }

    /**
     * Walks to the end of the chain c, then links the first free block behind it, count times. The program
     * stops when it finds none, which happens exactly when there are too few.
     */
    method AllocateBlocks(start: nat, count: nat, ghost c: seq<nat>) returns (aborted: bool)
      requires Sized(Value()) && IsChain(fat[..], blocks, c) && 0 !in c && c[0] == start
      modifies fat
      ensures aborted <==> |FreeList(old(fat[..]), blocks)| < count
      ensures !aborted ==> Allocate(old(Value()), c, count) == Some(Value())
    {
      var block := LastBlock(start, c);
      ghost var before, free := fat[..], FreeList(fat[..], blocks);
      LinkNone(before, block);
      FreeInRange(before, blocks);
      hide FreeList, LinkAll, IsChain;
      for i := 0 to count
        invariant i <= |free| && block == if i == 0 then c[|c| - 1] else free[i - 1]
        invariant fat[..] == LinkAll(before, c[|c| - 1], free[..i])
      {
        LinkingSoFar(before, blocks, c, i);
        var found := FirstFreeBlock();
        if found == None {
          return true;
        }
        LinkingNext(before, blocks, c, i);
        block := Link(block, found.value);
      }
      return false;
    }

    /** After i rounds the rest of the free list is still free. */
    static lemma LinkingSoFar(before: seq<nat>, n: nat, c: seq<nat>, i: nat)
      requires 0 < n <= |before| && IsChain(before, n, c) && 0 !in c && before[0] == EOC && i <= |FreeList(before, n)|
      ensures InRange(FreeList(before, n)[..i], |before|)
      ensures FreeList(LinkAll(before, c[|c| - 1], FreeList(before, n)[..i]), n) == FreeList(before, n)[i..]
      ensures LinkAll(before, c[|c| - 1], FreeList(before, n)[..i])[0] == EOC
    {
      LinkAllExtends(before, n, c, i);
      var free := FreeList(before, n);
      assert free[..i] <= free;
      assert forall b :: b in free[..i] ==> b in free;
      assert c[|c| - 1] in c;
    }

    /** The round after those links the next free block behind the last one. */
    static lemma LinkingNext(before: seq<nat>, n: nat, c: seq<nat>, i: nat)
      requires n <= |before| && IsChain(before, n, c) && i < |FreeList(before, n)|
      ensures var free, last := FreeList(before, n), c[|c| - 1];
        && InRange(free[..i], |before|) && InRange(free[..i + 1], |before|)
        && free[i] < |before| && (i > 0 ==> free[i - 1] < |before|)
        && LinkAll(before, last, free[..i + 1])
        == LinkAll(before, last, free[..i])[(if i == 0 then last else free[i - 1]) := free[i]][free[i] := EOC]
    {
      FreeInRange(before, n);
      var free := FreeList(before, n);
      assert free[..i + 1] == free[..i] + [free[i]];
      LinkLast(before, c[|c| - 1], free[..i], free[i]);
    }

    /** Points the last block at the free one, which becomes the last. */
    method Link(last: nat, free: nat) returns (block: nat)
      requires last < fat.Length && free < fat.Length
      modifies fat
      ensures block == free && fat[..] == old(fat[..])[last := free][free := EOC]
    {
      fat[last] := free;
      block := free;
      fat[block] := EOC;
    }

    /** Puts the name into the first empty entry and gives the file the first free block. */
    method Create(name: string) returns (r: int)
      requires Sized(Value())
      modifies this, fat, files
      ensures (Value(), r) == Volume.Create(old(Value()), name)
    {
      hide FreeList;
      if |name| > FILENAME_LEN { return -1; }
      if name == "" { return -1; }
      if total >= FILE_MAX_COUNT { return -1; }
      var slot := FindEntry("");
      if slot == None { return -1; }
      ghost var v := Value();
      files[slot.value] := files[slot.value].(name := name, size := 0);
      var free := FirstFreeBlock();
      if free.Some? {
        FirstFree(Value());
        fat[free.value] := EOC;
        files[slot.value] := files[slot.value].(start := free.value);
      }
      total := total + 1;
      assert files[..] == v.files[slot.value := File(name, 0, files[slot.value].start)];
      r := 0;
    }

    /** The first entry with the name. */
    method FindEntry(name: string) returns (r: Option<nat>)
      ensures r == Find(files[..], name)
    {
      for i := 0 to files.Length
        invariant forall j :: 0 <= j < i ==> ReadName(files[j]) != name
      {
        if ReadName(files[i]) == name {
          FindIs(files[..], name, i);
          return Some(i);
        }
      }
      return None;
    }

    /**
     * Deletes by the first match. A loop that does not end is followed for the given number of rounds, however many
     * they are, and the answer is then None.
     */
    method Delete(name: string, rounds: nat) returns (r: Option<int>)
      requires Sized(Value()) && Deletable(Value(), name)
      modifies this, fat, files
      ensures match Volume.Delete(old(Value()), name)
        case Deleted(v) => r == Some(0) && Value() == v
        case NoSuchFile => r == Some(-1) && Value() == old(Value())
        case Hangs =>
          && r == None && files[..] == old(files[..]) && total == old(total)
          && Find(files[..], name).Some? && files[Find(files[..], name).value].start < |old(fat[..])|
          && fat[..] == DeleteLoop(old(fat[..]), files[Find(files[..], name).value].start, rounds).0
    {
      hide Find, LoopEnds;
      var found := FindEntry(name);
      if found == None {
        return Some(-1);
      }
      var i := found.value;
      ghost var v, start := Value(), files[i].start;
      DeleteIs(v, name);
      var block := files[i].start;
      var n := 0;
      DeleteLoopHangs(v.fat, start, 0);
      while fat[block] != EOC && n < rounds
        invariant n <= rounds && block < fat.Length && files[..] == v.files && total == v.total
        invariant (fat[..], block) == DeleteLoop(v.fat, start, n)
        decreases rounds - n
      {
        var next := block;
        fat[block] := 0;
        block := next;
        n := n + 1;
      }
      DeleteLoopHangs(v.fat, start, n);
      hide Volume.Delete, DeleteLoop;
      if fat[block] != EOC {
        return None;
      }
      fat[block] := 0;
      files[i] := files[i].(size := 0);
      files[i] := files[i].(name := "");
      total := (total + 0xFFFF) % 0x1_0000;
      return Some(0);
    }

    /** The head of a write: extends the chain c of the file when the write runs past its end, and adds to its size. */
    method Grow(i: nat, offset: nat, count: nat, ghost c: seq<nat>) returns (aborted: bool)
      requires Sized(Value()) && i < files.Length && offset <= files[i].size
      requires IsChain(fat[..], blocks, c) && 0 !in c && c[0] == files[i].start
      modifies fat, files
      ensures aborted <==> Write(old(Value()), c, i, offset, count).None?
      ensures !aborted ==> Value() == Write(old(Value()), c, i, offset, count).value
    {
      hide FreeList, LinkAll, IsChain;
      if count + offset > files[i].size {
        var bytes := count + offset - files[i].size;
        var n := (BLOCK_SIZE + bytes - 1) / BLOCK_SIZE;
        if files[i].size == 0 {
          n := n - 1;
        }
        aborted := AllocateBlocks(files[i].start, n, c);
        if aborted {
          return;
        }
        files[i] := files[i].(size := (files[i].size + count) % 0x1_0000_0000);
      }
      return false;
    }

    /**
     * Lists the blocks that a read or a write of file i visits: as many as its size asks for, following the
     * table. They are the first blocks of its chain, so the walk never leaves the chain.
     */
    method VisitBlocks(i: nat, ghost chains: seq<seq<nat>>) returns (visited: seq<nat>)
      requires WellFormed(Value(), chains) && SizesCovered(Value(), chains) && i < files.Length && files[i].name != ""
      ensures |visited| == (files[i].size + BLOCK_SIZE - 1) / BLOCK_SIZE <= |chains[i]|
      ensures visited == chains[i][..|visited|]
    {
      ghost var c := chains[i];
      var count := (files[i].size + BLOCK_SIZE - 1) / BLOCK_SIZE;
      assert count <= BlocksFor(files[i].size);
      var index := files[i].start;
      visited := [];
      hide WellFormed, SizesCovered, BlocksFor;
      for n := 0 to count
        invariant n < |c| ==> index == c[n]
        invariant visited == c[..n]
      {
        visited := visited + [index];
        EndsOnce(fat[..], blocks, c, n);
        index := fat[index];
      }
    }
  }
}
