/** Runs from a formatted volume that lead to where an operation goes wrong. */
module VolumeFailures {
  import opened Fat
  import opened Layout
  import opened Volume
  import opened VolumeEffects
  import opened VolumeRuns
  import opened Wrappers

  /** The run is legal and leads to s. */
  ghost predicate Leads(v: Vol, ops: seq<Op>, s: State)
    requires Formatted(v)
  {
    Legal(v, ops) && After(v, ops) == s
  }

  lemma LeadsNext(v: Vol, ops: seq<Op>, s: State, op: Op)
    requires Formatted(v) && Leads(v, ops, s) && Inv(s) && Enabled(s, op)
    ensures Leads(v, ops + [op], Step(s, op)) && Inv(Step(s, op))
  {
    assert (ops + [op])[..|ops|] == ops;
    hide Inv, Enabled, Step;
  }

  // The steps, from states that are known in full

  function Created(s: State, name: string, i: nat, f: nat): State
    requires f < |s.vol.fat| && i < |s.vol.files| && i < |s.chains|
  {
    State(s.vol.(fat := s.vol.fat[f := EOC], files := s.vol.files[i := File(name, 0, f)], total := s.vol.total + 1),
          s.chains[i := [f]])
  }

  lemma CreateAt(s: State, name: string, i: nat, f: nat)
    requires Inv(s) && 0 < |name| <= FILENAME_LEN && s.vol.total < FILE_MAX_COUNT
    requires Find(s.vol.files, "") == Some(i) && FirstIs(s.vol, f)
    ensures f < |s.vol.fat| && i < |s.vol.files| && i < |s.chains|
    ensures Enabled(s, DoCreate(name)) && Step(s, DoCreate(name)) == Created(s, name, i, f)
  {
    FirstOfList(s.vol, f);
    CreateIs(s.vol, name, i, f);
    hide Create, FreeList, Find, ReadName, ChainTotal, Named, Covered, Disjoint, OwnChains, FirstIs;
  }

  function Filled(s: State, i: nat, size: nat): State
    requires i < |s.vol.files|
  {
    s.(vol := s.vol.(files := s.vol.files[i := s.vol.files[i].(size := size)]))
  }

  /** Bytes that fit into the one block of an empty file need no other. */
  lemma AppendWithin(s: State, i: nat, count: nat)
    requires Inv(s) && i < |s.vol.files| && s.vol.files[i].name != "" && s.vol.files[i].size == 0
    requires 0 < count <= BLOCK_SIZE
    ensures Enabled(s, DoAppend(i, count)) && Step(s, DoAppend(i, count)) == Filled(s, i, count)
  {
    assert AppendedBlocks(0, count) == 0;
    FileShape(s.vol, s.chains, i);
    hide ChainTotal, Named, Covered, Disjoint, OwnChains, BlocksFor;
    AppendNothing(s.vol, s.chains, i);
    LinkNone(s.vol.fat, s.chains[i][|s.chains[i]| - 1]);
    hide FreeList, LinkAll;
    assert FreeList(s.vol.fat, s.vol.blocks)[..0] == [];
  }

  function Linked(s: State, i: nat, b: nat, f: nat, size: nat): State
    requires i < |s.vol.files| && i < |s.chains| && b < |s.vol.fat| && f < |s.vol.fat|
  {
    State(s.vol.(fat := s.vol.fat[b := f][f := EOC], files := s.vol.files[i := s.vol.files[i].(size := size)]),
          s.chains[i := [b, f]])
  }

  lemma AllocateOne(v: Vol, b: nat, f: nat)
    requires Sized(v) && b < |v.fat| && FirstIs(v, f)
    ensures f < |v.fat| && 1 <= |FreeList(v.fat, v.blocks)| && FreeList(v.fat, v.blocks)[..1] == [f]
    ensures Allocate(v, [b], 1) == Some(v.(fat := v.fat[b := f][f := EOC]))
  {
    FirstOfList(v, f);
    hide FreeList;
    assert [f][1..] == [];
    LinkNone(v.fat[b := f][f := EOC], f);
  }

  lemma WriteOneBlock(v: Vol, chains: seq<seq<nat>>, i: nat, count: nat, b: nat, f: nat)
    requires Sized(v) && i < |v.files| && b < |v.fat| && FirstIs(v, f) && i < |chains| && chains[i] == [b]
    requires count > 0 && NewBlocks(v.files[i].size, v.files[i].size, count) == 1 && v.files[i].size + count < 0x1_0000_0000
    ensures f < |v.fat| && 1 <= |FreeList(v.fat, v.blocks)| && Appended(v, chains, i, 1) == chains[i := [b, f]]
    ensures Write(v, [b], i, v.files[i].size, count)
         == Some(v.(fat := v.fat[b := f][f := EOC], files := v.files[i := v.files[i].(size := v.files[i].size + count)]))
  {
    AllocateOne(v, b, f);
    hide FreeList, FirstIs, Allocate, NewBlocks;
    assert [b] + [f] == [b, f];
  }

  /** Bytes that ask for one more block bring the first free one to a file of one block. */
  lemma AppendOneBlock(s: State, i: nat, count: nat, b: nat, f: nat)
    requires Inv(s) && i < |s.vol.files| && s.vol.files[i].name != ""
    requires count > 0 && AppendedBlocks(s.vol.files[i].size, count) == 1 && s.vol.files[i].size + count < 0x1_0000_0000
    requires i < |s.chains| && s.chains[i] == [b] && FirstIs(s.vol, f)
    ensures b < |s.vol.fat| && f < |s.vol.fat|
    ensures Enabled(s, DoAppend(i, count))
    ensures Step(s, DoAppend(i, count)) == Linked(s, i, b, f, s.vol.files[i].size + count)
  {
    FileShape(s.vol, s.chains, i);
    assert s.chains[i][0] == b;
    WriteOneBlock(s.vol, s.chains, i, count, b, f);
    hide FreeList, ChainTotal, Named, Covered, Disjoint, OwnChains, BlocksFor, FirstIs, NewBlocks, Write, Appended;
  }

  function Removed(s: State, i: nat, b: nat): State
    requires i < |s.vol.files| && i < |s.chains| && b < |s.vol.fat| && s.vol.total > 0
  {
    State(s.vol.(fat := s.vol.fat[b := 0], files := s.vol.files[i := File("", 0, b)], total := s.vol.total - 1),
          s.chains[i := []])
  }

  lemma DeleteAt(s: State, name: string, i: nat, b: nat)
    requires Inv(s) && name != "" && Find(s.vol.files, name) == Some(i) && i < |s.chains| && s.chains[i] == [b]
    ensures i < |s.vol.files| && b < |s.vol.fat| && s.vol.total > 0
    ensures Enabled(s, DoDelete(name)) && Step(s, DoDelete(name)) == Removed(s, i, b)
  {
    hide Delete, Find, ReadName, FreeList, ChainTotal, Named, Covered, Disjoint, OwnChains, IsChain;
    NamedUpdate(s.vol.files, i, File("", 0, b));
    OnlyBlock(s.vol, s.chains, i);
    DeleteEndsExactly(s.vol, s.chains, name);
    DeleteIs(s.vol, name);
    Decrement(s.vol.total);
  }

  // The first steps

  lemma NoneFound(v: Vol)
    requires Formatted(v)
    ensures Find(v.files, "") == Some(0) && Inv(Start(v)) && Leads(v, [], Start(v)) && |v.files| == FILE_MAX_COUNT
    ensures v.blocks >= 2 ==> FirstIs(v, 1)
  {
    FindIs(v.files, "", 0);
    FormattedInv(v);
    hide Inv;
  }

  function OneFile(v: Vol, name: string): State
    requires |v.files| == FILE_MAX_COUNT && |v.fat| >= 2
  {
    State(Vol(v.fat[1 := EOC], v.blocks, v.files[0 := File(name, 0, 1)], 1), seq(FILE_MAX_COUNT, i => if i == 0 then [1] else []))
  }

  lemma OneFileReached(v: Vol, name: string)
    requires Formatted(v) && v.blocks >= 2 && 0 < |name| <= FILENAME_LEN
    ensures |v.files| == FILE_MAX_COUNT && |v.fat| >= 2
    ensures Leads(v, [DoCreate(name)], OneFile(v, name)) && Inv(OneFile(v, name))
    ensures Find(OneFile(v, name).vol.files, "") == Some(1)
    ensures v.blocks >= 3 ==> FirstIs(OneFile(v, name).vol, 2)
  {
    NoneFound(v);
    CreateAt(Start(v), name, 0, 1);
    assert Created(Start(v), name, 0, 1) == OneFile(v, name);
    FindIs(OneFile(v, name).vol.files, "", 1);
    hide Inv, Step, Enabled, Leads, Find, Sized;
    LeadsNext(v, [], Start(v), DoCreate(name));
    assert [] + [DoCreate(name)] == [DoCreate(name)];
  }

  lemma OneFileFilled(v: Vol, name: string, count: nat)
    requires Formatted(v) && v.blocks >= 2 && 0 < |name| <= FILENAME_LEN && 0 < count <= BLOCK_SIZE
    ensures |v.files| == FILE_MAX_COUNT && |v.fat| >= 2
    ensures Leads(v, [DoCreate(name), DoAppend(0, count)], Filled(OneFile(v, name), 0, count))
    ensures Inv(Filled(OneFile(v, name), 0, count))
  {
    OneFileReached(v, name);
    AppendWithin(OneFile(v, name), 0, count);
    hide Inv, Step, Enabled, Leads, Find;
    LeadsNext(v, [DoCreate(name)], OneFile(v, name), DoAppend(0, count));
    assert [DoCreate(name)] + [DoAppend(0, count)] == [DoCreate(name), DoAppend(0, count)];
  }

  lemma OneFileLinked(v: Vol, name: string, count: nat)
    requires Formatted(v) && v.blocks >= 3 && 0 < |name| <= FILENAME_LEN && BLOCK_SIZE < count <= 2 * BLOCK_SIZE
    ensures |v.files| == FILE_MAX_COUNT && |v.fat| >= 3
    ensures Leads(v, [DoCreate(name), DoAppend(0, count)], Linked(OneFile(v, name), 0, 1, 2, count))
    ensures Inv(Linked(OneFile(v, name), 0, 1, 2, count))
  {
    OneFileReached(v, name);
    assert AppendedBlocks(0, count) == 1;
    AppendOneBlock(OneFile(v, name), 0, count, 1, 2);
    hide Inv, Step, Enabled, Leads, Find;
    LeadsNext(v, [DoCreate(name)], OneFile(v, name), DoAppend(0, count));
    assert [DoCreate(name)] + [DoAppend(0, count)] == [DoCreate(name), DoAppend(0, count)];
  }

  // The failures

  /** With one data block, a second file is created without a block, and no chains make the volume well-formed. */
  lemma CreationWithoutBlock(v: Vol)
    requires Formatted(v) && v.blocks == 2
    ensures |v.files| == FILE_MAX_COUNT && |v.fat| >= 2 && Leads(v, [DoCreate("a")], OneFile(v, "a"))
    ensures Sized(OneFile(v, "a").vol) && Create(OneFile(v, "a").vol, "b").1 == 0
    ensures !exists chains' :: WellFormed(Create(OneFile(v, "a").vol, "b").0, chains')
  {
    OneFileReached(v, "a");
    var s := OneFile(v, "a");
    NothingFree(s.vol.fat, s.vol.blocks);
    hide FreeList, Find, Named, Covered, Disjoint, OwnChains, ChainTotal;
    CreateExactly(s.vol, s.chains, "b");
  }

  /** Creating a file twice and deleting it does not bring back the table from before the second creation. */
  lemma DuplicateName(v: Vol)
    requires Formatted(v) && v.blocks >= 3
    ensures |v.files| == FILE_MAX_COUNT && |v.fat| >= 2 && Leads(v, [DoCreate("a")], OneFile(v, "a"))
    ensures var w := OneFile(v, "a").vol;
      && Sized(w) && Create(w, "a").1 == 0 && Deletable(Create(w, "a").0, "a")
      && !(Delete(Create(w, "a").0, "a").Deleted? && Delete(Create(w, "a").0, "a").vol.fat == w.fat)
  {
    OneFileReached(v, "a");
    var s := OneFile(v, "a");
    FirstOfList(s.vol, 2);
    FindIs(s.vol.files, "a", 0);
    hide FreeList, Find, Named, Covered, Disjoint, OwnChains, ChainTotal, Delete, FirstIs;
    CreateThenDelete(s.vol, s.chains, "a");
  }

  /** The deletion of a file of two blocks does not end. */
  lemma DeletionHangs(v: Vol)
    requires Formatted(v) && v.blocks >= 3
    ensures |v.files| == FILE_MAX_COUNT && |v.fat| >= 3
    ensures var s := Linked(OneFile(v, "a"), 0, 1, 2, BLOCK_SIZE + 1);
      && Leads(v, [DoCreate("a"), DoAppend(0, BLOCK_SIZE + 1)], s)
      && Sized(s.vol) && Deletable(s.vol, "a") && Delete(s.vol, "a").Hangs?
  {
    OneFileLinked(v, "a", BLOCK_SIZE + 1);
    var s := Linked(OneFile(v, "a"), 0, 1, 2, BLOCK_SIZE + 1);
    FindIs(s.vol.files, "a", 0);
    hide Find, Named, Covered, Disjoint, OwnChains, ChainTotal, Delete, Leads;
    DeleteIs(s.vol, "a");
  }

  /** Two bytes written one after the other take two blocks. */
  lemma SecondByteWastes(v: Vol)
    requires Formatted(v) && v.blocks >= 3
    ensures |v.files| == FILE_MAX_COUNT && |v.fat| >= 3
    ensures var s := Linked(Filled(OneFile(v, "a"), 0, 1), 0, 1, 2, 2);
      && Leads(v, [DoCreate("a"), DoAppend(0, 1), DoAppend(0, 1)], s)
      && s.vol.files[0].size == 2 && s.chains[0] == [1, 2] && BlocksFor(2) == 1
  {
    OneFileReached(v, "a");
    OneFileFilled(v, "a", 1);
    assert AppendedBlocks(1, 1) == 1;
    AppendOneBlock(Filled(OneFile(v, "a"), 0, 1), 0, 1, 1, 2);
    hide Inv, Step, Enabled, Leads, Find;
    LeadsNext(v, [DoCreate("a"), DoAppend(0, 1)], Filled(OneFile(v, "a"), 0, 1), DoAppend(0, 1));
    assert [DoCreate("a"), DoAppend(0, 1)] + [DoAppend(0, 1)] == [DoCreate("a"), DoAppend(0, 1), DoAppend(0, 1)];
  }

  /**
   * A file with a name of 16 characters is created and written to. Unless the lowest byte of its size is 0, it is no
   * longer found by its name, and deleting it answers that there is no such file.
   */
  lemma NameIsLost(v: Vol, name: string, count: nat)
    requires Formatted(v) && v.blocks >= 2 && |name| == FILENAME_LEN && 0 < count <= BLOCK_SIZE && count % 0x100 != 0
    ensures |v.files| == FILE_MAX_COUNT && |v.fat| >= 2
    ensures var s := Filled(OneFile(v, name), 0, count);
      && Leads(v, [DoCreate(name), DoAppend(0, count)], s) && s.vol.files[0].name == name
      && Find(s.vol.files, name) == None && Sized(s.vol) && Delete(s.vol, name) == NoSuchFile
  {
    OneFileFilled(v, name, count);
    var s := Filled(OneFile(v, name), 0, count);
    FoundExactly(s.vol.files, 0);
    hide Find, Named, Covered, Disjoint, OwnChains, ChainTotal, Leads;
  }

  /** The steps of the next run: two files, the first deleted, and the second grown into the block of the first. */
  function TwoFiles(v: Vol): State
    requires |v.files| == FILE_MAX_COUNT && |v.fat| >= 3
  {
    Created(OneFile(v, "a"), "b", 1, 2)
  }

  lemma TwoFilesReached(v: Vol)
    requires Formatted(v) && v.blocks >= 3
    ensures |v.files| == FILE_MAX_COUNT && |v.fat| >= 3
    ensures Leads(v, [DoCreate("a"), DoCreate("b")], TwoFiles(v)) && Inv(TwoFiles(v))
  {
    OneFileReached(v, "a");
    CreateAt(OneFile(v, "a"), "b", 1, 2);
    hide Inv, Step, Enabled, Leads, Find;
    LeadsNext(v, [DoCreate("a")], OneFile(v, "a"), DoCreate("b"));
    assert [DoCreate("a")] + [DoCreate("b")] == [DoCreate("a"), DoCreate("b")];
  }

  function SecondLeft(v: Vol): State
    requires |v.files| == FILE_MAX_COUNT && |v.fat| >= 3
  {
    Removed(TwoFiles(v), 0, 1)
  }

  lemma SecondLeftReached(v: Vol)
    requires Formatted(v) && v.blocks >= 3
    ensures |v.files| == FILE_MAX_COUNT && |v.fat| >= 3
    ensures Leads(v, [DoCreate("a"), DoCreate("b"), DoDelete("a")], SecondLeft(v)) && Inv(SecondLeft(v))
    ensures FirstIs(SecondLeft(v).vol, 1)
  {
    TwoFilesReached(v);
    FindIs(TwoFiles(v).vol.files, "a", 0);
    DeleteAt(TwoFiles(v), "a", 0, 1);
    hide Inv, Step, Enabled, Leads, Find;
    LeadsNext(v, [DoCreate("a"), DoCreate("b")], TwoFiles(v), DoDelete("a"));
    assert [DoCreate("a"), DoCreate("b")] + [DoDelete("a")] == [DoCreate("a"), DoCreate("b"), DoDelete("a")];
  }

  function SecondGrown(v: Vol): State
    requires |v.files| == FILE_MAX_COUNT && |v.fat| >= 3
  {
    Linked(SecondLeft(v), 1, 2, 1, BLOCK_SIZE + 1)
  }

  lemma SecondGrownReached(v: Vol)
    requires Formatted(v) && v.blocks >= 3
    ensures |v.files| == FILE_MAX_COUNT && |v.fat| >= 3
    ensures Leads(v, [DoCreate("a"), DoCreate("b"), DoDelete("a"), DoAppend(1, BLOCK_SIZE + 1)], SecondGrown(v))
    ensures Inv(SecondGrown(v)) && Find(SecondGrown(v).vol.files, "") == Some(0)
  {
    SecondLeftReached(v);
    assert AppendedBlocks(0, BLOCK_SIZE + 1) == 1;
    AppendOneBlock(SecondLeft(v), 1, BLOCK_SIZE + 1, 2, 1);
    FindIs(SecondGrown(v).vol.files, "", 0);
    hide Inv, Step, Enabled, Leads, Find;
    LeadsNext(v, [DoCreate("a"), DoCreate("b"), DoDelete("a")], SecondLeft(v), DoAppend(1, BLOCK_SIZE + 1));
    assert [DoCreate("a"), DoCreate("b"), DoDelete("a")] + [DoAppend(1, BLOCK_SIZE + 1)]
        == [DoCreate("a"), DoCreate("b"), DoDelete("a"), DoAppend(1, BLOCK_SIZE + 1)];
  }

  /**
   * After these four operations the empty name can be deleted; that takes the second block away from file b, and no
   * chains fit the volume any more.
   */
  lemma EmptyNameDamages(v: Vol)
    requires Formatted(v) && v.blocks >= 3
    ensures |v.files| == FILE_MAX_COUNT && |v.fat| >= 3
    ensures var s := SecondGrown(v);
      && Leads(v, [DoCreate("a"), DoCreate("b"), DoDelete("a"), DoAppend(1, BLOCK_SIZE + 1)], s)
      && s.vol.files[1].name == "b" && s.chains[1] == [2, 1]
      && Sized(s.vol) && Deletable(s.vol, "") && Delete(s.vol, "").Deleted? && Delete(s.vol, "").vol.fat[1] == 0
      && !exists chains' :: Sized(Delete(s.vol, "").vol) && OwnChains(Delete(s.vol, "").vol, chains')
  {
    SecondGrownReached(v);
    var s := SecondGrown(v);
    hide Find, Named, Covered, Disjoint, OwnChains, ChainTotal, Delete, Leads;
    DeleteIs(s.vol, "");
    EmptyNameExactly(s.vol, s.chains);
  }

  /**
   * On every formatted volume of at least three blocks: a file is created and given 4096 bytes, and a write of 4097
   * bytes over it then succeeds and leaves the file without the blocks that its recorded size asks for.
   */
  lemma OverlapLosesBlocks(v: Vol)
    requires Formatted(v) && v.blocks >= 3
    ensures |v.files| == FILE_MAX_COUNT && |v.fat| >= 2
    ensures var s := Filled(OneFile(v, "a"), 0, BLOCK_SIZE);
      && Leads(v, [DoCreate("a"), DoAppend(0, BLOCK_SIZE)], s)
      && Sized(s.vol) && s.chains[0] == [1] && 1 <= |FreeList(s.vol.fat, s.vol.blocks)|
      && Write(s.vol, s.chains[0], 0, 0, BLOCK_SIZE + 1).Some?
      && !SizesCovered(Write(s.vol, s.chains[0], 0, 0, BLOCK_SIZE + 1).value, Appended(s.vol, s.chains, 0, 1))
  {
    OneFileFilled(v, "a", BLOCK_SIZE);
    OneFileReached(v, "a");
    var s := Filled(OneFile(v, "a"), 0, BLOCK_SIZE);
    FirstOfList(OneFile(v, "a").vol, 2);
    hide FreeList, ChainTotal, Covered, Disjoint, Named, Leads, Find, FirstIs;
    assert NewBlocks(BLOCK_SIZE, 0, BLOCK_SIZE + 1) == 1 && BlocksFor(2 * BLOCK_SIZE + 1) == 3;
    WriteCoversExactly(s.vol, s.chains, 0, 0, BLOCK_SIZE + 1);
  }
}
