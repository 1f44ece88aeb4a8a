/** Whole runs of creation, writing and single-block deletion from a formatted volume. */
module VolumeRuns {
  import opened Fat
  import opened Volume
  import opened VolumeEffects
  import opened Wrappers

  datatype Op =
    | DoCreate(name: string) | DoDelete(name: string)
    | DoAppend(file: nat, count: nat) | DoOverwrite(file: nat, offset: nat, count: nat)

  /** A volume with the chains of its files. */
  datatype State = State(vol: Vol, chains: seq<seq<nat>>)

  ghost function ChainTotal(chains: seq<seq<nat>>): nat {
    if chains == [] then 0 else ChainTotal(chains[..|chains| - 1]) + |chains[|chains| - 1]|
  }

  lemma {:induction false} ChainTotalUpdate(chains: seq<seq<nat>>, i: nat, c: seq<nat>)
    requires i < |chains|
    ensures ChainTotal(chains[i := c]) == ChainTotal(chains) - |chains[i]| + |c|
  {
    var n := |chains| - 1;
    if i == n {
      assert chains[i := c][..n] == chains[..n];
    } else {
      ChainTotalUpdate(chains[..n], i, c);
      assert chains[i := c][..n] == chains[..n][i := c];
    }
  }

  /** Well-formed, with blocks for every size, and every block is free, in a chain, or block 0. */
  ghost predicate Inv(s: State) {
    && WellFormed(s.vol, s.chains) && SizesCovered(s.vol, s.chains)
    && |FreeList(s.vol.fat, s.vol.blocks)| + ChainTotal(s.chains) + 1 == s.vol.blocks
  }

  /** No block but the first is in use, and no entry has a name. */
  ghost predicate Blank(v: Vol) {
    && Sized(v)
    && (forall b :: 0 < b < v.blocks ==> v.fat[b] == 0)
    && (forall i :: 0 <= i < |v.files| ==> v.files[i].name == "")
  }

  ghost predicate Formatted(v: Vol) {
    Blank(v) && v.total == 0
  }

  /** A volume without files has no chains. */
  ghost function Start(v: Vol): State {
    State(v, seq(|v.files|, i => []))
  }

  lemma {:induction false} AllFree(fat: seq<nat>, n: nat)
    requires 1 <= n <= |fat| && fat[0] != 0 && forall b :: 0 < b < n ==> fat[b] == 0
    ensures |FreeList(fat, n)| == n - 1
  {
    if n > 1 {
      AllFree(fat, n - 1);
    } else {
      assert FreeList(fat, 0) == [];
    }
  }

  lemma {:induction false} NoneNamed(files: seq<File>)
    requires forall i :: 0 <= i < |files| ==> files[i].name == ""
    ensures Named(files) == 0
  {
    if files != [] { NoneNamed(files[..|files| - 1]); }
  }

  lemma {:induction false} NoChains(chains: seq<seq<nat>>)
    requires forall i :: 0 <= i < |chains| ==> chains[i] == []
    ensures ChainTotal(chains) == 0
  {
    if chains != [] { NoChains(chains[..|chains| - 1]); }
  }

  lemma FormattedInv(v: Vol)
    requires Formatted(v)
    ensures Inv(Start(v))
  {
    var chains: seq<seq<nat>> := seq(|v.files|, i => []);
    AllFree(v.fat, v.blocks);
    NoneNamed(v.files);
    NoChains(chains);
    hide FreeList, Named, ChainTotal;
    assert forall b :: !InSome(chains, b);
  }

  /** A blank volume is well-formed if and only if its count of files, which mounting adds to and never clears, is 0. */
  lemma FormattedExactly(v: Vol)
    requires Blank(v)
    ensures (exists chains :: WellFormed(v, chains)) <==> v.total == 0
  {
    NoneNamed(v.files);
    if v.total == 0 {
      FormattedInv(v);
      var chains: seq<seq<nat>> := seq(|v.files|, i => []);
      assert WellFormed(v, chains);
    }
    hide Covered, OwnChains, Disjoint, Named;
  }

  /**
   * Creation needs a free block when it succeeds at all, deletion a name whose first match has one block, and
   * a write starts at the end of a file and finds the blocks it asks for, or stays inside the file.
   */
  ghost predicate Enabled(s: State, op: Op)
    requires Inv(s)
  {
    match op
    case DoCreate(name) => Create(s.vol, name).1 == -1 || FreeList(s.vol.fat, s.vol.blocks) != []
    case DoDelete(name) =>
      name != "" && (Find(s.vol.files, name).Some? ==> |s.chains[Find(s.vol.files, name).value]| == 1)
    case DoAppend(i, count) =>
      && i < |s.vol.files| && s.vol.files[i].name != ""
      && (count == 0 || AppendedBlocks(s.vol.files[i].size, count) <= |FreeList(s.vol.fat, s.vol.blocks)|)
    case DoOverwrite(i, offset, count) =>
      i < |s.vol.files| && s.vol.files[i].name != "" && offset + count <= s.vol.files[i].size
  }

  /** Creation takes the first block off the free list. */
  lemma CreateTakesFirst(v: Vol, name: string)
    requires Sized(v) && Create(v, name).1 == 0 && FreeList(v.fat, v.blocks) != []
    ensures FreeList(Create(v, name).0.fat, v.blocks) == FreeList(v.fat, v.blocks)[1..]
  {
    hide FreeList;
    HeadIsLeast(v.fat, v.blocks);
    FreeListTail(v.fat, Create(v, name).0.fat, v.blocks, FreeList(v.fat, v.blocks)[0]);
  }

  lemma CreateStep(s: State, name: string)
    requires Inv(s) && Enabled(s, DoCreate(name)) && Create(s.vol, name).1 == 0
    ensures Inv(State(Create(s.vol, name).0, s.chains[Find(s.vol.files, "").value := [FreeList(s.vol.fat, s.vol.blocks)[0]]]))
  {
    hide FreeList, Covered, Disjoint, Named, IsChain, ChainTotal;
    var v, i := s.vol, Find(s.vol.files, "").value;
    CreateKeepsWellFormed(v, s.chains, name);
    CreateTakesFirst(v, name);
    assert s.chains[i] == [];
    ChainTotalUpdate(s.chains, i, [FreeList(v.fat, v.blocks)[0]]);
    hide Find, OwnChains;
  }

  lemma {:induction false} ReleaseCount(fat: seq<nat>, n: nat, b: nat)
    requires n <= |fat| && b < |fat| && fat[b] != 0
    ensures |FreeList(fat[b := 0], n)| == |FreeList(fat, n)| + if b < n then 1 else 0
  {
    if n > 0 { ReleaseCount(fat, n - 1, b); }
  }

  lemma DeleteStep(s: State, name: string)
    requires Inv(s) && Enabled(s, DoDelete(name)) && Find(s.vol.files, name).Some?
    ensures Deletable(s.vol, name) && Delete(s.vol, name).Deleted?
    ensures Inv(State(Delete(s.vol, name).vol, s.chains[Find(s.vol.files, name).value := []]))
  {
    hide Delete, FreeList, Covered, Disjoint, Named, IsChain, ChainTotal, BlocksFor;
    var v, i := s.vol, Find(s.vol.files, name).value;
    DeleteEndsExactly(v, s.chains, name);
    DeleteIs(v, name);
    DeleteKeepsWellFormed(v, s.chains, name);
    NamedIsOccupied(v, s.chains, i);
    hide OwnChains, Find;
    ReleaseCount(v.fat, v.blocks, v.files[i].start);
    ChainTotalUpdate(s.chains, i, []);
  }

  lemma {:induction false} AppendStep(s: State, i: nat, count: nat)
    requires Inv(s) && Enabled(s, DoAppend(i, count))
    ensures s.chains[i] != [] && InRange(s.chains[i], |s.vol.fat|)
    ensures Write(s.vol, s.chains[i], i, s.vol.files[i].size, count).Some?
    ensures var k := AppendedBlocks(s.vol.files[i].size, count);
      k <= |FreeList(s.vol.fat, s.vol.blocks)|
      && Inv(State(Write(s.vol, s.chains[i], i, s.vol.files[i].size, count).value, Appended(s.vol, s.chains, i, k)))
  {
    var v, k := s.vol, AppendedBlocks(s.vol.files[i].size, count);
    hide FreeList, Covered, Disjoint, Named, ChainTotal, BlocksFor, NewBlocks;
    AppendCoversSize(v, s.chains, i, count);
    hide IsChain, Write;
    ChainTotalUpdate(s.chains, i, s.chains[i] + FreeList(v.fat, v.blocks)[..k]);
  }

  /** A write inside a file leaves everything as it is. */
  lemma OverwriteStep(s: State, i: nat, offset: nat, count: nat)
    requires Inv(s) && Enabled(s, DoOverwrite(i, offset, count))
    ensures |s.chains| == |s.vol.files| && s.chains[i] != [] && InRange(s.chains[i], |s.vol.fat|)
    ensures Write(s.vol, s.chains[i], i, offset, count) == Some(s.vol)
  {
    FileShape(s.vol, s.chains, i);
    hide FreeList, Covered, Disjoint, Named, ChainTotal, BlocksFor, Write;
    WriteInside(s.vol, s.chains[i], i, offset, count);
  }

  ghost function Step(s: State, op: Op): (s': State)
    requires Inv(s) && Enabled(s, op)
    ensures Inv(s')
  {
    match op
    case DoCreate(name) =>
      if Create(s.vol, name).1 == -1 then s
      else
        CreateStep(s, name);
        State(Create(s.vol, name).0, s.chains[Find(s.vol.files, "").value := [FreeList(s.vol.fat, s.vol.blocks)[0]]])
    case DoDelete(name) =>
      if Find(s.vol.files, name).None? then s
      else
        DeleteStep(s, name);
        State(Delete(s.vol, name).vol, s.chains[Find(s.vol.files, name).value := []])
    case DoAppend(i, count) =>
      AppendStep(s, i, count);
      State(Write(s.vol, s.chains[i], i, s.vol.files[i].size, count).value,
            Appended(s.vol, s.chains, i, AppendedBlocks(s.vol.files[i].size, count)))
    case DoOverwrite(i, offset, count) =>
      OverwriteStep(s, i, offset, count);
      State(Write(s.vol, s.chains[i], i, offset, count).value, s.chains)
  }

  /** Runs in which every operation is enabled, and the state that each reaches. */
  ghost predicate Legal(v: Vol, ops: seq<Op>)
    requires Formatted(v)
    decreases |ops|, 0
  {
    if ops == [] then true
    else
      var before := ops[..|ops| - 1];
      Legal(v, before) && (AfterInv(v, before); Enabled(After(v, before), ops[|ops| - 1]))
  }

  ghost function After(v: Vol, ops: seq<Op>): State
    requires Formatted(v) && Legal(v, ops)
    decreases |ops|, 1
  {
    if ops == [] then Start(v)
    else
      var before := ops[..|ops| - 1];
      AfterInv(v, before);
      Step(After(v, before), ops[|ops| - 1])
  }

  /**
   * After any run: the entries in use are entry 0 and the blocks of the files' chains, which are disjoint, end,
   * and never visit a block twice; every file has the blocks its size asks for; and no block is lost.
   */
  lemma {:induction false} AfterInv(v: Vol, ops: seq<Op>)
    requires Formatted(v) && Legal(v, ops)
    ensures Inv(After(v, ops))
    decreases |ops|, 2
  {
    hide Inv, Enabled;
    if ops == [] {
      FormattedInv(v);
    } else {
      AfterInv(v, ops[..|ops| - 1]);
    }
  }
}
