/** When the operations on a volume succeed, and what they leave as it was. */
module VolumeEffects {
  import opened Fat
  import opened Layout
  import opened Volume
  import opened Wrappers

  // Creation

  lemma {:induction false} AllNamed(files: seq<File>)
    requires forall i :: 0 <= i < |files| ==> files[i].name != ""
    ensures Named(files) == |files|
  {
    if files != [] { AllNamed(files[..|files| - 1]); }
  }

  /** A directory that is not full has an empty entry, and the search for the empty name finds the first. */
  lemma EmptyEntry(files: seq<File>)
    requires Named(files) < |files|
    ensures Find(files, "").Some? && files[Find(files, "").value].name == ""
    ensures forall j :: 0 <= j < Find(files, "").value ==> files[j].name != ""
  {
    if forall i :: 0 <= i < |files| ==> files[i].name != "" {
      AllNamed(files);
    }
    hide Named;
  }

  /**
   * Creation succeeds if and only if the name has 1 to 16 characters and the directory is not full; otherwise it
   * answers -1 and changes nothing.
   */
  lemma CreateSucceedsExactly(v: Vol, chains: seq<seq<nat>>, name: string)
    requires WellFormed(v, chains)
    ensures Create(v, name).1 == 0 <==> 1 <= |name| <= FILENAME_LEN && v.total < FILE_MAX_COUNT
    ensures Create(v, name).1 != 0 ==> Create(v, name) == (v, -1)
  {
    if v.total < FILE_MAX_COUNT {
      EmptyEntry(v.files);
    }
    hide Named, OwnChains, Disjoint, Covered, Find, FreeList;
  }

  /** The first free block is f. */
  ghost predicate FirstIs(v: Vol, f: nat) {
    0 < f < v.blocks <= |v.fat| && v.fat[f] == 0 && forall b :: 0 <= b < f ==> v.fat[b] != 0
  }

  lemma FirstOfList(v: Vol, f: nat)
    requires FirstIs(v, f)
    ensures FreeList(v.fat, v.blocks) != [] && FreeList(v.fat, v.blocks)[0] == f
  {
    assert f in FreeList(v.fat, v.blocks);
    HeadIsLeast(v.fat, v.blocks);
    hide FreeList;
  }

  lemma {:induction false} NothingFree(fat: seq<nat>, n: nat)
    requires n <= |fat| && forall b :: 0 <= b < n ==> fat[b] != 0
    ensures FreeList(fat, n) == []
  {
    if n > 0 { NothingFree(fat, n - 1); }
  }

  lemma CreateIs(v: Vol, name: string, i: nat, f: nat)
    requires Sized(v) && 0 < |name| <= FILENAME_LEN && v.total < FILE_MAX_COUNT && Find(v.files, "") == Some(i)
    requires FreeList(v.fat, v.blocks) != [] && FreeList(v.fat, v.blocks)[0] == f
    ensures f < |v.fat| && i < |v.files|
    ensures Create(v, name) == (v.(fat := v.fat[f := EOC], files := v.files[i := File(name, 0, f)], total := v.total + 1), 0)
  {
    hide FreeList, Find, ReadName;
    FirstFree(v);
  }

  /** A new file takes the first empty entry and the first free block, has size 0, and is counted; all else stays. */
  lemma CreatedFile(v: Vol, name: string, i: nat, f: nat)
    requires Sized(v) && 1 <= |name| <= FILENAME_LEN && v.total < FILE_MAX_COUNT && FirstIs(v, f)
    requires i < |v.files| && v.files[i].name == "" && forall j :: 0 <= j < i ==> v.files[j].name != ""
    ensures Create(v, name)
         == (Vol(v.fat[f := EOC], v.blocks, v.files[i := File(name, 0, f)], v.total + 1), 0)
  {
    FindIs(v.files, "", i);
    FirstOfList(v, f);
    hide FreeList, Find, ReadName, Create;
    CreateIs(v, name, i, f);
  }

  /** With no free block it takes the entry all the same, with the start that was left in it. */
  lemma CreatedWithoutBlock(v: Vol, name: string, i: nat)
    requires Sized(v) && 1 <= |name| <= FILENAME_LEN && v.total < FILE_MAX_COUNT
    requires forall b :: 0 <= b < v.blocks ==> v.fat[b] != 0
    requires i < |v.files| && v.files[i].name == "" && forall j :: 0 <= j < i ==> v.files[j].name != ""
    ensures Create(v, name)
         == (Vol(v.fat, v.blocks, v.files[i := File(name, 0, v.files[i].start)], v.total + 1), 0)
  {
    FindIs(v.files, "", i);
    NothingFree(v.fat, v.blocks);
    hide FreeList, Find, ReadName;
  }

  /** Deletion answers that there is no such file if and only if no entry reads as the name. */
  lemma DeleteRefusesExactly(v: Vol, name: string)
    requires Sized(v) && Deletable(v, name)
    ensures Delete(v, name).NoSuchFile? <==> forall i :: 0 <= i < |v.files| ==> ReadName(v.files[i]) != name
  {
    hide Find, ReadName, LoopEnds, DeleteLoop;
    if Find(v.files, name).Some? {
      DeleteIs(v, name);
    }
  }

  // Writing

  /** A write that stays inside the file succeeds and changes neither the table nor the directory nor the count. */
  lemma WriteInside(v: Vol, c: seq<nat>, i: nat, offset: nat, count: nat)
    requires Sized(v) && c != [] && InRange(c, |v.fat|) && i < |v.files| && offset + count <= v.files[i].size
    ensures Write(v, c, i, offset, count) == Some(v)
  {
    hide FreeList;
  }

  /** The blocks that a growing write asks for hold the bytes past the end and no more, on top of those that are there. */
  lemma NewBlocksHold(size: nat, offset: nat, count: nat)
    requires offset <= size < offset + count
    ensures var n, bytes := NewBlocks(size, offset, count) + (if size == 0 then 1 else 0), offset + count - size;
      (n - 1) * BLOCK_SIZE < bytes <= n * BLOCK_SIZE
  {
  }

  /** Nothing but the table and the size of file i differs. */
  ghost predicate OthersKept(v: Vol, v': Vol, i: nat) {
    && v'.blocks == v.blocks && v'.total == v.total && |v'.fat| == |v.fat| && |v'.files| == |v.files|
    && forall j :: 0 <= j < |v.files| ==>
      v'.files[j].name == v.files[j].name && v'.files[j].start == v.files[j].start && (j != i ==> v'.files[j] == v.files[j])
  }

  lemma WriteFindsBlocks(v: Vol, c: seq<nat>, i: nat, offset: nat, count: nat)
    requires Sized(v) && c != [] && InRange(c, |v.fat|) && i < |v.files| && offset <= v.files[i].size < offset + count
    ensures Write(v, c, i, offset, count).Some? <==> NewBlocks(v.files[i].size, offset, count) <= |FreeList(v.fat, v.blocks)|
    ensures Write(v, c, i, offset, count).Some? ==> OthersKept(v, Write(v, c, i, offset, count).value, i)
  {
    hide FreeList, NewBlocks, LinkAll;
  }

  /**
   * A write from any place in a file succeeds if and only if it finds the blocks that it asks for. It never lowers the
   * size, which goes up by the whole count when the write ends behind it and stays otherwise, and it touches no other entry.
   */
  lemma WriteExactly(v: Vol, chains: seq<seq<nat>>, i: nat, offset: nat, count: nat)
    requires WellFormed(v, chains) && SizesCovered(v, chains) && i < |v.files| && v.files[i].name != ""
    requires offset <= v.files[i].size
    ensures Sized(v) && |chains| == |v.files| && chains[i] != [] && InRange(chains[i], |v.fat|)
    ensures var size, r := v.files[i].size, Write(v, chains[i], i, offset, count);
      && (r.Some? <==> offset + count <= size || NewBlocks(size, offset, count) <= |FreeList(v.fat, v.blocks)|)
      && (r.Some? ==>
            && OthersKept(v, r.value, i)
            && r.value.files[i].size == (if offset + count <= size then size else size + count)
            && (offset + count <= size ==> r.value == v))
  {
    FileShape(v, chains, i);
    if offset + count <= v.files[i].size {
      WriteInside(v, chains[i], i, offset, count);
      hide WellFormed, SizesCovered, NewBlocks, FreeList, Write;
    } else {
      hide WellFormed, SizesCovered, NewBlocks, FreeList, Write, Allocate;
      WriteFindsBlocks(v, chains[i], i, offset, count);
      if Write(v, chains[i], i, offset, count).Some? {
        WriteIs(v, chains, i, offset, count);
      }
    }
  }

  /** The bytes in the last block of a file with so many, all in the case of a full block. */
  function InLast(bytes: nat): nat
    requires bytes > 0
  {
    (bytes - 1) % BLOCK_SIZE + 1
  }

  lemma TightArithmetic(size: nat, count: nat)
    requires count > 0
    ensures BlocksFor(size) + NewBlocks(size, size, count) == BlocksFor(size + count)
      <==> size == 0 || InLast(size) + InLast(count) > BLOCK_SIZE
  {
  }

  /**
   * The room in the last block of a file is not used by a write at its end. So a file that has no block too many stays
   * so if and only if it was empty, or that room would not have held what comes into the last new block.
   */
  lemma AppendStaysTightExactly(v: Vol, chains: seq<seq<nat>>, i: nat, count: nat)
    requires WellFormed(v, chains) && SizesCovered(v, chains) && i < |v.files| && v.files[i].name != "" && count > 0
    requires |chains| == |v.files| && |chains[i]| == BlocksFor(v.files[i].size)
    requires NewBlocks(v.files[i].size, v.files[i].size, count) <= |FreeList(v.fat, v.blocks)|
    ensures var size := v.files[i].size; var chains' := Appended(v, chains, i, NewBlocks(size, size, count));
      |chains'[i]| == BlocksFor(size + count) <==> size == 0 || InLast(size) + InLast(count) > BLOCK_SIZE
  {
    FileShape(v, chains, i);
    hide WellFormed, SizesCovered, FreeList, Appended, NewBlocks, BlocksFor, InLast;
    var size := v.files[i].size;
    AppendedLength(v, chains, i, NewBlocks(size, size, count));
    TightArithmetic(size, count);
  }
}
