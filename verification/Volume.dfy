/** The mounted volume as a value: the table, the root directory, and the operations on them. */
module Volume {
  import opened Fat
  import opened Layout
  import opened Wrappers

  /** A root directory entry; an entry without a name is empty, and its start is left over from earlier use. */
  datatype File = File(name: string, size: nat, start: nat)

  /** The table, the number of data blocks, the directory, and the count of named entries kept beside it. */
  datatype Vol = Vol(fat: seq<nat>, blocks: nat, files: seq<File>, total: nat)

  ghost predicate Sized(v: Vol) {
    && 1 <= v.blocks <= |v.fat| && v.blocks <= EOC
    && |v.files| == FILE_MAX_COUNT
    && v.fat[0] == EOC
  }

  /** The number of named entries. */
  function Named(files: seq<File>): nat {
    if files == [] then 0
    else Named(files[..|files| - 1]) + if files[|files| - 1].name != "" then 1 else 0
  }

  /** chains[i] is the chain of entry i, and is empty when the entry is. */
  ghost predicate OwnChains(v: Vol, chains: seq<seq<nat>>)
    requires Sized(v)
  {
    && |chains| == |v.files|
    && (forall i :: 0 <= i < |chains| ==>
      if v.files[i].name == "" then chains[i] == []
      else IsChain(v.fat, v.blocks, chains[i]) && chains[i][0] == v.files[i].start && 0 !in chains[i])
  }

  ghost predicate Disjoint(chains: seq<seq<nat>>) {
    forall i, j, b :: 0 <= i < j < |chains| && b in chains[i] ==> b !in chains[j]
  }

  ghost predicate InSome(chains: seq<seq<nat>>, b: nat) {
    exists i :: 0 <= i < |chains| && b in chains[i]
  }

  /** The entries in use are entry 0 and the blocks of the chains, and no others. */
  ghost predicate Covered(v: Vol, chains: seq<seq<nat>>)
    requires Sized(v)
  {
    forall b {:trigger InSome(chains, b)} :: 0 <= b < v.blocks ==> (v.fat[b] != 0 <==> b == 0 || InSome(chains, b))
  }

  ghost predicate WellFormed(v: Vol, chains: seq<seq<nat>>) {
    && Sized(v) && v.total == Named(v.files)
    && OwnChains(v, chains) && Disjoint(chains) && Covered(v, chains)
  }

  /** Bytes as text, up to the first that is zero. */
  function UpToZero(bytes: seq<nat>): string {
    if bytes == [] || bytes[0] % 0x100 == 0 then "" else [(bytes[0] % 0x100) as char] + UpToZero(bytes[1..])
  }

  /** What follows the name of an entry in memory: the bytes of its size and its start, up to a zero. */
  function Tail(f: File): (s: string)
    ensures s == "" <==> f.size % 0x100 == 0
  {
    UpToZero([f.size, f.size / 0x100, f.size / 0x1_0000, f.size / 0x100_0000, f.start, f.start / 0x100])
  }

  /** The string that a comparison reads from an entry: a name that fills its buffer has no terminator, so it reads on. */
  function ReadName(f: File): (s: string)
    ensures |f.name| < FILENAME_LEN ==> s == f.name
    ensures s == "" <==> f.name == ""
    ensures s == f.name <==> |f.name| < FILENAME_LEN || f.size % 0x100 == 0
  {
    if |f.name| < FILENAME_LEN then f.name else f.name + Tail(f)
  }

  /** The first entry that reads as the name; the empty name finds the first empty entry. */
  function Find(files: seq<File>, name: string): (r: Option<nat>)
    ensures r.Some? ==> r.value < |files| && ReadName(files[r.value]) == name
    ensures r.Some? ==> forall j :: 0 <= j < r.value ==> ReadName(files[j]) != name
    ensures r.None? ==> forall j :: 0 <= j < |files| ==> ReadName(files[j]) != name
  {
    if files == [] then None
    else if ReadName(files[0]) == name then Some(0)
    else match Find(files[1..], name)
      case Some(i) => Some(i + 1)
      case None => None
  }

  /** Creates an empty file of one block. With no free block the entry is made all the same, with its old start. */
  ghost function Create(v: Vol, name: string): (r: (Vol, int))
    requires Sized(v)
    ensures Sized(r.0)
  {
    if |name| > FILENAME_LEN || name == "" || v.total >= FILE_MAX_COUNT || Find(v.files, "").None? then (v, -1)
    else
      var i, free := Find(v.files, "").value, FreeList(v.fat, v.blocks);
      if free == [] then
        (v.(files := v.files[i := File(name, 0, v.files[i].start)], total := v.total + 1), 0)
      else
        assert free[0] in free;
        (v.(fat := v.fat[free[0] := EOC], files := v.files[i := File(name, 0, free[0])], total := v.total + 1), 0)
  }

  /** Deletion frees one block; on a longer chain its loop does not end. */
  datatype Deletion = Deleted(vol: Vol) | NoSuchFile | Hangs

  /** The entry that deletion by this name would take starts inside the table. */
  predicate Deletable(v: Vol, name: string) {
    Find(v.files, name).Some? ==> v.files[Find(v.files, name).value].start < |v.fat|
  }

  /** The deletion loop after k rounds, which it leaves at the end marker: each clears an entry and steps to the next. */
  ghost function DeleteLoop(fat: seq<nat>, b: nat, k: nat): (r: (seq<nat>, nat))
    requires b < |fat|
    ensures |r.0| == |fat| && r.1 < |fat|
  {
    if k == 0 then (fat, b)
    else
      var (before, block) := DeleteLoop(fat, b, k - 1);
      if before[block] == EOC then (before, block)
      else
        var next := block;
        (before[block := 0], next)
  }

  ghost predicate LoopEnds(fat: seq<nat>, b: nat, k: nat)
    requires b < |fat|
  {
    var (after, block) := DeleteLoop(fat, b, k);
    after[block] == EOC
  }

  /** Deletion by the first match: the loop over its blocks if that ends, the last block, and the entry. */
  ghost function Delete(v: Vol, name: string): (r: Deletion)
    requires Sized(v) && Deletable(v, name)
  {
    match Find(v.files, name)
    case None => NoSuchFile
    case Some(i) =>
      var b := v.files[i].start;
      if exists k: nat :: LoopEnds(v.fat, b, k) then
        var k: nat :| LoopEnds(v.fat, b, k);
        var (after, block) := DeleteLoop(v.fat, b, k);
        Deleted(v.(fat := after[block := 0], files := v.files[i := File("", 0, b)],
                   total := (v.total + 0xFFFF) % 0x1_0000))
      else Hangs
  }

  /** When no other entry reads as its name, a file is found by it if and only if its size keeps the name terminated. */
  lemma FoundExactly(files: seq<File>, i: nat)
    requires i < |files| && forall j :: 0 <= j < |files| && j != i ==> ReadName(files[j]) != files[i].name
    ensures Find(files, files[i].name) == Some(i) <==> |files[i].name| < FILENAME_LEN || files[i].size % 0x100 == 0
    ensures Find(files, files[i].name) != Some(i) ==> Find(files, files[i].name) == None
  {
    hide ReadName;
    if ReadName(files[i]) == files[i].name {
      FindIs(files, files[i].name, i);
    }
    hide Find;
  }

  // What creation keeps

  lemma {:induction false} NamedBound(files: seq<File>)
    ensures Named(files) <= |files|
  {
    if files != [] { NamedBound(files[..|files| - 1]); }
  }

  lemma {:induction false} NamedUpdate(files: seq<File>, i: nat, f: File)
    requires i < |files|
    ensures Named(files[i := f])
         == Named(files) - (if files[i].name != "" then 1 else 0) + (if f.name != "" then 1 else 0)
    ensures files[i].name != "" ==> Named(files) > 0
    ensures Named(files) <= |files|
  {
    var n := |files| - 1;
    NamedBound(files[..n]);
    if i == n {
      assert files[i := f][..n] == files[..n];
    } else {
      NamedUpdate(files[..n], i, f);
      assert files[i := f][..n] == files[..n][i := f];
    }
  }

  /** Occupying a free block disturbs no chain. */
  lemma OccupyKeepsChain(fat: seq<nat>, n: nat, c: seq<nat>, f: nat)
    requires n <= |fat| && IsChain(fat, n, c) && 0 !in c && f < n && fat[f] == 0
    ensures f !in c && IsChain(fat[f := EOC], n, c)
  {
    ChainIsOccupied(fat, n, c);
  }

  lemma DisjointUpdate(chains: seq<seq<nat>>, i: nat, c: seq<nat>)
    requires Disjoint(chains) && i < |chains|
    requires forall j, b :: 0 <= j < |chains| && j != i && b in c ==> b !in chains[j]
    ensures Disjoint(chains[i := c])
  {
  }

  lemma InSomeUpdate(chains: seq<seq<nat>>, i: nat, c: seq<nat>, b: nat)
    requires i < |chains| && forall x :: x in chains[i] ==> x in c
    ensures InSome(chains[i := c], b) <==> InSome(chains, b) || b in c
  {
    var chains' := chains[i := c];
    if InSome(chains, b) {
      var j :| 0 <= j < |chains| && b in chains[j];
      assert b in chains'[j];
    }
    if b in c {
      assert b in chains'[i];
    }
    if InSome(chains', b) && b !in c {
      var j :| 0 <= j < |chains'| && b in chains'[j];
      assert b in chains[j];
    }
  }

  lemma CreateOwnChains(v: Vol, chains: seq<seq<nat>>, i: nat, f: nat, file: File, v': Vol)
    requires Sized(v) && OwnChains(v, chains) && Sized(v')
    requires i < |v.files| && f < v.blocks && f != 0 && v.fat[f] == 0 && file.name != "" && file.start == f
    requires v'.blocks == v.blocks && v'.fat == v.fat[f := EOC] && v'.files == v.files[i := file]
    ensures OwnChains(v', chains[i := [f]])
    ensures forall j :: 0 <= j < |chains| ==> f !in chains[j]
  {
    assert IsChain(v'.fat, v'.blocks, [f]);
    forall j | 0 <= j < |chains| && v.files[j].name != "" ensures f !in chains[j] && IsChain(v'.fat, v.blocks, chains[j]) {
      OccupyKeepsChain(v.fat, v.blocks, chains[j], f);
    }
  }

  lemma CreateCovered(v: Vol, chains: seq<seq<nat>>, i: nat, f: nat, v': Vol)
    requires Sized(v) && Sized(v') && Covered(v, chains) && i < |chains| && chains[i] == [] && f < v.blocks
    requires v'.blocks == v.blocks && v'.fat == v.fat[f := EOC]
    ensures Covered(v', chains[i := [f]])
  {
    forall b | 0 <= b < v.blocks ensures v'.fat[b] != 0 <==> b == 0 || InSome(chains[i := [f]], b) {
      InSomeUpdate(chains, i, [f], b);
    }
  }

  lemma FirstFree(v: Vol)
    requires Sized(v) && FreeList(v.fat, v.blocks) != []
    ensures var f := FreeList(v.fat, v.blocks)[0]; 0 < f < v.blocks && v.fat[f] == 0
  {
    assert FreeList(v.fat, v.blocks)[0] in FreeList(v.fat, v.blocks);
  }

  /** Creating a file while a block is free keeps the volume well-formed; the new chain is that one block. */
  lemma CreateKeepsWellFormed(v: Vol, chains: seq<seq<nat>>, name: string)
    requires WellFormed(v, chains) && Create(v, name).1 == 0 && FreeList(v.fat, v.blocks) != []
    ensures WellFormed(Create(v, name).0, chains[Find(v.files, "").value := [FreeList(v.fat, v.blocks)[0]]])
  {
    hide FreeList, Named, Covered, Disjoint, IsChain;
    FirstFree(v);
    var f, i := FreeList(v.fat, v.blocks)[0], Find(v.files, "").value;
    var file := File(name, 0, f);
    var v' := v.(fat := v.fat[f := EOC], files := v.files[i := file], total := v.total + 1);
    assert Create(v, name) == (v', 0);
    assert v.files[i].name == "" && chains[i] == [];
    hide Create, Find, OwnChains;
    NamedUpdate(v.files, i, file);
    CreateOwnChains(v, chains, i, f, file, v');
    DisjointUpdate(chains, i, [f]);
    CreateCovered(v, chains, i, f, v');
  }

  /** With no free block left, no assignment of chains makes the volume after a successful creation well-formed. */
  lemma CreateNeedsFreeBlock(v: Vol, chains: seq<seq<nat>>, name: string, chains': seq<seq<nat>>)
    requires WellFormed(v, chains) && Create(v, name).1 == 0 && FreeList(v.fat, v.blocks) == []
    ensures !WellFormed(Create(v, name).0, chains')
  {
    var v' := Create(v, name).0;
    var i := Find(v.files, "").value;
    if WellFormed(v', chains') {
      var b := chains'[i][0];
      assert b in chains'[i] && b !in FreeList(v.fat, v.blocks);
      assert InSome(chains, b);
      var j :| 0 <= j < |chains| && b in chains[j];
      ChainsKept(v, chains, v', chains', j);
    }
  }

  lemma ChainsKept(v: Vol, chains: seq<seq<nat>>, v': Vol, chains': seq<seq<nat>>, j: nat)
    requires Sized(v) && Sized(v') && OwnChains(v, chains) && OwnChains(v', chains') && j < |v.files|
    requires v'.fat == v.fat && v'.blocks == v.blocks && v'.files[j] == v.files[j] && v.files[j].name != ""
    ensures chains'[j] == chains[j]
  {
    ChainIsUnique(v.fat, v.blocks, chains[j], chains'[j]);
  }

  /** Creation keeps the volume well-formed if and only if a block was free. */
  lemma CreateExactly(v: Vol, chains: seq<seq<nat>>, name: string)
    requires WellFormed(v, chains) && Create(v, name).1 == 0
    ensures (exists chains' :: WellFormed(Create(v, name).0, chains')) <==> FreeList(v.fat, v.blocks) != []
  {
    hide FreeList, Covered, Disjoint, Named, Find;
    if FreeList(v.fat, v.blocks) != [] {
      CreateKeepsWellFormed(v, chains, name);
      assert Find(v.files, "").Some? && |chains| == |v.files|;
      var chains' := chains[Find(v.files, "").value := [FreeList(v.fat, v.blocks)[0]]];
      assert WellFormed(Create(v, name).0, chains');
    } else {
      forall chains' ensures !WellFormed(Create(v, name).0, chains') {
        CreateNeedsFreeBlock(v, chains, name, chains');
      }
    }
  }

  // What deletion keeps

  /** The loop never leaves its first block, so it reaches the end marker if and only if it starts there. */
  lemma {:induction false} DeleteLoopHangs(fat: seq<nat>, b: nat, k: nat)
    requires b < |fat|
    ensures LoopEnds(fat, b, k) <==> fat[b] == EOC
    ensures DeleteLoop(fat, b, k) == (if fat[b] == EOC || k == 0 then fat else fat[b := 0], b)
  {
    if k > 0 {
      DeleteLoopHangs(fat, b, k - 1);
      assert fat[b := 0][b := 0] == fat[b := 0];
    }
  }

  lemma DeleteIs(v: Vol, name: string)
    requires Sized(v) && Deletable(v, name) && Find(v.files, name).Some?
    ensures var i := Find(v.files, name).value; var b := v.files[i].start;
      Delete(v, name) ==
        if v.fat[b] != EOC then Hangs
        else Deleted(v.(fat := v.fat[b := 0], files := v.files[i := File("", 0, b)], total := (v.total + 0xFFFF) % 0x1_0000))
  {
    hide Find, DeleteLoop, LoopEnds;
    var b := v.files[Find(v.files, name).value].start;
    DeleteLoopHangs(v.fat, b, 0);
    forall k: nat
      ensures LoopEnds(v.fat, b, k) ==> v.fat[b] == EOC && DeleteLoop(v.fat, b, k) == (v.fat, b)
    {
      DeleteLoopHangs(v.fat, b, k);
    }
  }

  /** Deletion ends if and only if the start of the entry is marked as an end; that of a file is when it is its only block. */
  lemma DeleteEndsExactly(v: Vol, chains: seq<seq<nat>>, name: string)
    requires WellFormed(v, chains) && Find(v.files, name).Some? && (name == "" ==> Deletable(v, name))
    ensures Deletable(v, name)
    ensures Delete(v, name).Deleted? <==> v.fat[v.files[Find(v.files, name).value].start] == EOC
    ensures name != "" ==> (Delete(v, name).Deleted? <==> |chains[Find(v.files, name).value]| == 1)
  {
    hide Delete, Named, Disjoint, Covered;
    var i := Find(v.files, name).value;
    if name != "" {
      EndsOnce(v.fat, v.blocks, chains[i], 0);
    }
    DeleteIs(v, name);
  }

  lemma ReleaseKeepsChain(fat: seq<nat>, n: nat, c: seq<nat>, b: nat)
    requires n <= |fat| && IsChain(fat, n, c) && b < |fat| && b !in c
    ensures IsChain(fat[b := 0], n, c)
  {
  }

  lemma DeleteOwnChains(v: Vol, chains: seq<seq<nat>>, i: nat, b: nat, v': Vol)
    requires Sized(v) && Sized(v') && OwnChains(v, chains) && Disjoint(chains)
    requires i < |v.files| && chains[i] == [b] && b < v.blocks
    requires v'.blocks == v.blocks && v'.fat == v.fat[b := 0] && v'.files == v.files[i := File("", 0, b)]
    ensures OwnChains(v', chains[i := []])
    ensures forall j :: 0 <= j < |chains| && j != i ==> b !in chains[j]
  {
    assert b in chains[i];
    forall j | 0 <= j < |chains| && j != i ensures b !in chains[j] {
      assert j < i || i < j;
    }
    forall j | 0 <= j < |chains| && j != i && v.files[j].name != "" ensures IsChain(v'.fat, v'.blocks, chains[j]) {
      ReleaseKeepsChain(v.fat, v.blocks, chains[j], b);
    }
  }

  lemma DeleteCovered(v: Vol, chains: seq<seq<nat>>, i: nat, b: nat, v': Vol)
    requires Sized(v) && Sized(v') && Covered(v, chains) && i < |chains| && chains[i] == [b] && b < v.blocks
    requires forall j :: 0 <= j < |chains| && j != i ==> b !in chains[j]
    requires v'.blocks == v.blocks && v'.fat == v.fat[b := 0]
    ensures Covered(v', chains[i := []])
  {
    var chains' := chains[i := []];
    forall x | 0 <= x < v.blocks ensures v'.fat[x] != 0 <==> x == 0 || InSome(chains', x) {
      InSomeUpdate(chains', i, [b], x);
      assert chains'[i := [b]] == chains;
    }
  }

  lemma DeletedFinds(v: Vol, name: string)
    requires Sized(v) && Deletable(v, name) && Delete(v, name).Deleted?
    ensures Find(v.files, name).Some?
  {
    hide Find, LoopEnds, DeleteLoop;
  }

  lemma OnlyBlock(v: Vol, chains: seq<seq<nat>>, i: nat)
    requires WellFormed(v, chains) && i < |chains| && v.files[i].name != "" && |chains[i]| == 1
    ensures chains[i] == [v.files[i].start] && 0 < v.files[i].start < v.blocks
  {
    hide Named, Disjoint, Covered;
    assert chains[i][0] in chains[i];
  }

  /** Deleting a file of one block frees that block and keeps everything else. */
  lemma DeleteKeepsWellFormed(v: Vol, chains: seq<seq<nat>>, name: string)
    requires WellFormed(v, chains) && name != "" && Deletable(v, name) && Delete(v, name).Deleted?
    ensures Find(v.files, name).Some? && Find(v.files, name).value < |chains|
    ensures WellFormed(Delete(v, name).vol, chains[Find(v.files, name).value := []])
  {
    assert |chains| == |v.files|;
    hide Delete, Find, ReadName, FreeList, Named, Covered, Disjoint, OwnChains, IsChain;
    DeletedFinds(v, name);
    DeleteIs(v, name);
    DeleteEndsExactly(v, chains, name);
    var i, v' := Find(v.files, name).value, Delete(v, name).vol;
    var b := v.files[i].start;
    OnlyBlock(v, chains, i);
    NamedUpdate(v.files, i, File("", 0, b));
    Decrement(v.total);
    DeleteOwnChains(v, chains, i, b, v');
    DisjointUpdate(chains, i, []);
    DeleteCovered(v, chains, i, b, v');
  }

  lemma EmptyNameMiscounts(v: Vol, chains: seq<seq<nat>>)
    requires WellFormed(v, chains) && Deletable(v, "") && Find(v.files, "").Some? && Delete(v, "").Deleted?
    ensures Delete(v, "").vol.total != Named(Delete(v, "").vol.files)
  {
    hide Delete, Find, Named, OwnChains, Disjoint, Covered;
    DeleteIs(v, "");
    var i := Find(v.files, "").value;
    NamedUpdate(v.files, i, File("", 0, v.files[i].start));
  }

  lemma CountIsRight(v: Vol, chains: seq<seq<nat>>)
    requires WellFormed(v, chains)
    ensures Sized(v) && v.total == Named(v.files)
  {
    hide Named;
  }

  /** A deletion that ends keeps the volume well-formed if and only if it was given a name. */
  lemma DeleteExactly(v: Vol, chains: seq<seq<nat>>, name: string)
    requires WellFormed(v, chains) && Deletable(v, name) && Find(v.files, name).Some? && Delete(v, name).Deleted?
    ensures (exists chains' :: WellFormed(Delete(v, name).vol, chains')) <==> name != ""
    ensures name != "" ==>
      && Find(v.files, name).value < |chains|
      && WellFormed(Delete(v, name).vol, chains[Find(v.files, name).value := []])
  {
    hide *;
    CountIsRight(v, chains);
    if name != "" {
      DeleteKeepsWellFormed(v, chains, name);
      var chains' := chains[Find(v.files, name).value := []];
      assert WellFormed(Delete(v, name).vol, chains');
    } else {
      EmptyNameMiscounts(v, chains);
      if chains' :| WellFormed(Delete(v, name).vol, chains') {
        CountIsRight(Delete(v, name).vol, chains');
        assert false;
      }
    }
  }

  /** A chain read off a table that agrees on all links of c, from the same block, follows c to its last block. */
  lemma {:induction false} FollowedUpTo(fat: seq<nat>, fat': seq<nat>, n: nat, c: seq<nat>, d: seq<nat>, k: nat)
    requires n <= |fat| == |fat'| && n <= EOC && IsChain(fat, n, c) && IsChain(fat', n, d) && c[0] == d[0]
    requires k < |c| && forall i :: 0 <= i < |c| - 1 ==> fat'[c[i]] == fat[c[i]]
    ensures k < |d| && d[k] == c[k]
  {
    if k > 0 {
      FollowedUpTo(fat, fat', n, c, d, k - 1);
      EndsOnce(fat, n, c, k - 1);
      EndsOnce(fat', n, d, k - 1);
    }
  }

  /** Once the last block of a chain is free, what starts where it did runs into block 0. */
  lemma FreedChainMeetsZero(fat: seq<nat>, n: nat, c: seq<nat>, d: seq<nat>)
    requires n <= |fat| && n <= EOC && IsChain(fat, n, c)
    requires IsChain(fat[c[|c| - 1] := 0], n, d) && d[0] == c[0]
    ensures 0 in d
  {
    var k := |c| - 1;
    var fat' := fat[c[k] := 0];
    FollowedUpTo(fat, fat', n, c, d, k);
    EndsOnce(fat', n, d, k);
    assert d[k + 1] in d;
  }

  /** A used block that is marked as an end is the last block of a file. */
  lemma LastBlockOf(v: Vol, chains: seq<seq<nat>>, b: nat) returns (j: nat)
    requires WellFormed(v, chains) && 0 < b < v.blocks && v.fat[b] == EOC
    ensures j < |chains| && v.files[j].name != "" && chains[j] != [] && b == chains[j][|chains[j]| - 1]
  {
    hide Named, Disjoint, IsChain;
    assert InSome(chains, b);
    j :| 0 <= j < |chains| && b in chains[j];
    var k :| 0 <= k < |chains[j]| && chains[j][k] == b;
    EndsOnce(v.fat, v.blocks, chains[j], k);
  }

  lemma NoChainsWithout(v: Vol, chains: seq<seq<nat>>, j: nat, v': Vol, chains': seq<seq<nat>>)
    requires Sized(v) && OwnChains(v, chains) && j < |chains| && v.files[j].name != "" && chains[j] != []
    requires chains[j][|chains[j]| - 1] < |v.fat| && v'.fat == v.fat[chains[j][|chains[j]| - 1] := 0]
    requires Sized(v') && v'.blocks == v.blocks && |v'.files| == |v.files| && v'.files[j] == v.files[j]
    ensures !OwnChains(v', chains')
  {
    if OwnChains(v', chains') {
      FreedChainMeetsZero(v.fat, v.blocks, chains[j], chains'[j]);
    }
  }

  /** Deleting the empty name takes the last block away from a file, or block 0 from the volume, and no chains fit then. */
  lemma EmptyNameTakesBlock(v: Vol, chains: seq<seq<nat>>, chains': seq<seq<nat>>)
    requires WellFormed(v, chains) && Find(v.files, "").Some? && Deletable(v, "") && Delete(v, "").Deleted?
    requires v.files[Find(v.files, "").value].start < v.blocks
    ensures var b := v.files[Find(v.files, "").value].start;
      b == 0 || exists j :: 0 <= j < |chains| && chains[j] != [] && b == chains[j][|chains[j]| - 1]
    ensures !(Sized(Delete(v, "").vol) && OwnChains(Delete(v, "").vol, chains'))
  {
    var i, v' := Find(v.files, "").value, Delete(v, "").vol;
    var b := v.files[i].start;
    hide Delete, Find, Named, Disjoint, Covered, OwnChains;
    DeleteIs(v, "");
    if b != 0 {
      var j := LastBlockOf(v, chains, b);
      if Sized(v') {
        NoChainsWithout(v, chains, j, v', chains');
      }
    }
  }

  lemma EmptyNameOutside(v: Vol, chains: seq<seq<nat>>)
    requires WellFormed(v, chains) && Find(v.files, "").Some? && Deletable(v, "") && Delete(v, "").Deleted?
    requires v.blocks <= v.files[Find(v.files, "").value].start
    ensures Sized(Delete(v, "").vol) && OwnChains(Delete(v, "").vol, chains)
  {
    hide Delete, Find, Named, Disjoint, Covered;
    DeleteIs(v, "");
  }

  /** After a deletion of the empty name that ends, the files still have chains if and only if the start was no data block. */
  lemma EmptyNameExactly(v: Vol, chains: seq<seq<nat>>)
    requires WellFormed(v, chains) && Find(v.files, "").Some? && Deletable(v, "") && Delete(v, "").Deleted?
    ensures (exists chains' :: Sized(Delete(v, "").vol) && OwnChains(Delete(v, "").vol, chains'))
       <==> v.blocks <= v.files[Find(v.files, "").value].start
  {
    assert Sized(v);
    hide Delete, Find, WellFormed, OwnChains;
    if v.files[Find(v.files, "").value].start < v.blocks {
      forall chains' ensures !(Sized(Delete(v, "").vol) && OwnChains(Delete(v, "").vol, chains')) {
        EmptyNameTakesBlock(v, chains, chains');
      }
    } else {
      EmptyNameOutside(v, chains);
    }
  }

  lemma Decrement(total: nat)
    requires 0 < total < 0x1_0000
    ensures (total + 0xFFFF) % 0x1_0000 == total - 1
  {
  }

  lemma {:induction false} FindIs(files: seq<File>, name: string, k: nat)
    requires k < |files| && ReadName(files[k]) == name && forall j :: 0 <= j < k ==> ReadName(files[j]) != name
    ensures Find(files, name) == Some(k)
  {
    if k > 0 {
      FindIs(files[1..], name, k - 1);
    }
  }

  /**
   * Creating a file and deleting it by its name restores the table if and only if no earlier entry has that
   * name: duplicate names are not refused, and deletion takes the first match.
   */
  lemma {:induction false} CreateThenDelete(v: Vol, chains: seq<seq<nat>>, name: string)
    requires WellFormed(v, chains) && Create(v, name).1 == 0 && FreeList(v.fat, v.blocks) != []
    ensures var v', first := Create(v, name).0, Find(v.files, name);
      && Deletable(v', name)
      && ((Delete(v', name).Deleted? && Delete(v', name).vol.fat == v.fat)
          <==> (first.None? || Find(v.files, "").value < first.value))
  {
    hide FreeList, Named, Covered, Disjoint, IsChain, Find;
    FirstFree(v);
    var f, i, first := FreeList(v.fat, v.blocks)[0], Find(v.files, "").value, Find(v.files, name);
    var v' := Create(v, name).0;
    assert v'.fat == v.fat[f := EOC] && v'.files == v.files[i := File(name, 0, f)];
    if first.Some? && first.value < i {
      NamedIsOccupied(v, chains, first.value);
      FirstMatchIsOlder(v, name, v', f, i, first.value);
    } else {
      FirstMatchIsNew(v, name, v', f, i);
    }
    hide Create, Delete, OwnChains, Deletable;
  }

  lemma FirstMatchIsOlder(v: Vol, name: string, v': Vol, f: nat, i: nat, k: nat)
    requires Sized(v) && Sized(v') && f < |v.fat| && v.fat[f] == 0 && i < |v.files| && k < i
    requires v'.fat == v.fat[f := EOC] && v'.files == v.files[i := File(name, 0, f)]
    requires ReadName(v.files[k]) == name && forall j :: 0 <= j < k ==> ReadName(v.files[j]) != name
    requires v.files[k].start < |v.fat| && v.fat[v.files[k].start] != 0
    ensures Deletable(v', name)
    ensures Delete(v', name).Deleted? ==> Delete(v', name).vol.fat != v.fat
  {
    FindIs(v'.files, name, k);
    DeleteIs(v', name);
    hide Delete, Find;
    assert v'.fat[v.files[k].start := 0][f] == EOC;
  }

  lemma FirstMatchIsNew(v: Vol, name: string, v': Vol, f: nat, i: nat)
    requires Sized(v) && Sized(v') && f < |v.fat| && v.fat[f] == 0 && i < |v.files|
    requires v'.fat == v.fat[f := EOC] && v'.files == v.files[i := File(name, 0, f)]
    requires forall j :: 0 <= j < i ==> ReadName(v.files[j]) != name
    ensures Deletable(v', name)
    ensures Delete(v', name).Deleted? && Delete(v', name).vol.fat == v.fat
  {
    FindIs(v'.files, name, i);
    DeleteIs(v', name);
    hide Delete, Find;
    assert v'.fat[f := 0] == v.fat;
  }

  lemma NamedIsOccupied(v: Vol, chains: seq<seq<nat>>, i: nat)
    requires Sized(v) && OwnChains(v, chains) && i < |v.files| && v.files[i].name != ""
    ensures v.files[i].start < v.blocks && v.fat[v.files[i].start] != 0
  {
    ChainIsOccupied(v.fat, v.blocks, chains[i]);
  }

  // What growth keeps

  /** The table after the allocator has extended the chain c by count blocks. */
  ghost function Allocate(v: Vol, c: seq<nat>, count: nat): (r: Option<Vol>)
    requires Sized(v) && c != [] && InRange(c, |v.fat|)
  {
    FreeInRange(v.fat, v.blocks);
    var free := FreeList(v.fat, v.blocks);
    if |free| < count then None else Some(v.(fat := LinkAll(v.fat, c[|c| - 1], free[..count])))
  }

  lemma OtherChainKept(fat: seq<nat>, fat': seq<nat>, n: nat, c: seq<nat>)
    requires n <= |fat| == |fat'| && IsChain(fat, n, c) && forall i :: 0 <= i < |c| ==> fat'[c[i]] == fat[c[i]]
    ensures IsChain(fat', n, c)
  {
  }

  /** Linking free blocks behind one chain touches no other. */
  lemma OtherUntouched(v: Vol, chains: seq<seq<nat>>, i: nat, fs: seq<nat>, j: nat)
    requires Sized(v) && OwnChains(v, chains) && Disjoint(chains) && i < |chains| && j < |chains|
    requires v.files[i].name != "" && v.files[j].name != ""
    requires InRange(fs, v.blocks) && forall b :: b in fs ==> v.fat[b] == 0
    ensures forall b :: b in fs ==> b !in chains[j]
    ensures j != i ==>
      var fat' := LinkAll(v.fat, chains[i][|chains[i]| - 1], fs);
      IsChain(fat', v.blocks, chains[j]) && forall b :: b in chains[j] ==> b < |v.fat| && fat'[b] == v.fat[b]
  {
    ChainIsOccupied(v.fat, v.blocks, chains[j]);
    LastInRange(v.fat, v.blocks, chains[i]);
    var last := chains[i][|chains[i]| - 1];
    var fat' := LinkAll(v.fat, last, fs);
    hide LinkAll;
    if j != i {
      assert last in chains[i] && last !in chains[j] by { assert i < j || j < i; }
      forall b | b in chains[j] ensures b < |v.fat| && fat'[b] == v.fat[b] {}
      OtherChainKept(v.fat, fat', v.blocks, chains[j]);
    }
  }

  lemma ChainShape(fat: seq<nat>, n: nat, c: seq<nat>)
    requires n <= |fat| && IsChain(fat, n, c)
    ensures c != [] && InRange(c, |fat|)
  {
  }

  lemma AllocatedChain(v: Vol, c: seq<nat>, count: nat)
    requires Sized(v) && IsChain(v.fat, v.blocks, c) && 0 !in c
    requires c != [] && InRange(c, |v.fat|) && Allocate(v, c, count).Some?
    ensures count <= |FreeList(v.fat, v.blocks)|
    ensures var v', fs := Allocate(v, c, count).value, FreeList(v.fat, v.blocks)[..count];
      && Sized(v') && v'.blocks == v.blocks && v'.files == v.files && FreeList(v'.fat, v'.blocks) == FreeList(v.fat, v.blocks)[count..]
      && InRange(fs, v.blocks) && (forall b :: b in fs ==> v.fat[b] == 0) && v'.fat == LinkAll(v.fat, c[|c| - 1], fs)
      && IsChain(v'.fat, v'.blocks, c + fs) && 0 !in c + fs && (c + fs)[0] == c[0]
  {
    var v', free := Allocate(v, c, count).value, FreeList(v.fat, v.blocks);
    var fs := free[..count];
    FreeInRange(v.fat, v.blocks);
    LinkAllExtends(v.fat, v.blocks, c, count);
    assert forall b :: b in fs ==> b in free;
    LastInRange(v.fat, v.blocks, c);
    assert c[|c| - 1] in c;
    hide FreeList, LinkAll, IsChain;
    assert v'.fat[0] == EOC;
  }

  lemma AllocateOwnChains(v: Vol, chains: seq<seq<nat>>, i: nat, count: nat)
    requires Sized(v) && OwnChains(v, chains) && Disjoint(chains) && i < |v.files| && v.files[i].name != ""
    requires Allocate(v, chains[i], count).Some?
    ensures var v', fs := Allocate(v, chains[i], count).value, FreeList(v.fat, v.blocks)[..count];
      && Sized(v') && FreeList(v'.fat, v'.blocks) == FreeList(v.fat, v.blocks)[count..]
      && OwnChains(v', chains[i := chains[i] + fs])
      && (forall j, b :: 0 <= j < |chains| && b in fs ==> b !in chains[j])
      && (forall j :: 0 <= j < |chains| && j != i && v.files[j].name != "" ==>
            forall b :: b in chains[j] ==> v'.fat[b] == v.fat[b])
  {
    hide FreeList, LinkAll, IsChain, Allocate;
    ChainShape(v.fat, v.blocks, chains[i]);
    AllocatedChain(v, chains[i], count);
    var v', fs := Allocate(v, chains[i], count).value, FreeList(v.fat, v.blocks)[..count];
    forall j | 0 <= j < |chains| && v.files[j].name != ""
      ensures forall b :: b in fs ==> b !in chains[j]
      ensures j != i ==> forall b :: b in chains[j] ==> b < |v.fat| && v'.fat[b] == v.fat[b]
      ensures j != i ==> IsChain(v'.fat, v'.blocks, chains[j])
    {
      OtherUntouched(v, chains, i, fs, j);
    }
  }

  lemma AllocateCovered(v: Vol, chains: seq<seq<nat>>, i: nat, count: nat, v': Vol)
    requires Sized(v) && Sized(v') && v'.blocks == v.blocks && Covered(v, chains) && i < |chains|
    requires count <= |FreeList(v.fat, v.blocks)|
    requires FreeList(v'.fat, v'.blocks) == FreeList(v.fat, v.blocks)[count..]
    ensures Covered(v', chains[i := chains[i] + FreeList(v.fat, v.blocks)[..count]])
  {
    var free := FreeList(v.fat, v.blocks);
    FreeListIncreases(v.fat, v.blocks);
    var fs, rest := free[..count], free[count..];
    assert free == fs + rest;
    forall x, y | 0 <= x < |fs| && 0 <= y < |rest| ensures fs[x] != rest[y] {
      assert free[x] < free[count + y];
    }
    assert forall b: nat :: b in rest <==> b in free && b !in fs;
    forall b | 0 <= b < v.blocks ensures v'.fat[b] != 0 <==> b == 0 || InSome(chains[i := chains[i] + fs], b) {
      assert b in rest <==> v'.fat[b] == 0;
      InSomeUpdate(chains, i, chains[i] + fs, b);
      if b in chains[i] { assert InSome(chains, b); }
    }
  }

  /** Allocation gives the chain the first free blocks in increasing order and leaves every other chain as it was. */
  lemma {:induction false} AllocateKeepsWellFormed(v: Vol, chains: seq<seq<nat>>, i: nat, count: nat)
    requires WellFormed(v, chains) && i < |v.files| && v.files[i].name != ""
    requires Allocate(v, chains[i], count).Some?
    ensures var v', fs := Allocate(v, chains[i], count).value, FreeList(v.fat, v.blocks)[..count];
      && WellFormed(v', chains[i := chains[i] + fs])
      && |fs| == count && FreeList(v'.fat, v'.blocks) == FreeList(v.fat, v.blocks)[count..]
      && (forall j :: 0 <= j < |chains| && j != i && v.files[j].name != "" ==>
            forall b :: b in chains[j] ==> v'.fat[b] == v.fat[b])
  {
    var v', fs := Allocate(v, chains[i], count).value, FreeList(v.fat, v.blocks)[..count];
    AllocateOwnChains(v, chains, i, count);
    AllocateCovered(v, chains, i, count, v');
    hide FreeList, OwnChains, Covered, IsChain, LinkAll, Named;
    forall j, b | 0 <= j < |chains| && j != i && b in chains[i] + fs ensures b !in chains[j] {
      assert i < j || j < i;
    }
    DisjointUpdate(chains, i, chains[i] + fs);
  }

  // Writing

  /** The blocks that a file of the given size must have: one even when it is empty. */
  function BlocksFor(size: nat): nat {
    if size == 0 then 1 else (size + BLOCK_SIZE - 1) / BLOCK_SIZE
  }

  /** The blocks that a write past the end of the file asks for. */
  function NewBlocks(size: nat, offset: nat, count: nat): nat
    requires size < offset + count && offset <= size
  {
    var bytes := count + offset - size;
    (BLOCK_SIZE + bytes - 1) / BLOCK_SIZE - if size == 0 then 1 else 0
  }

  /** The volume after a write has extended the file i, whose chain is c; sizes are 32 bits wide. */
  ghost function Write(v: Vol, c: seq<nat>, i: nat, offset: nat, count: nat): (r: Option<Vol>)
    requires Sized(v) && c != [] && InRange(c, |v.fat|) && i < |v.files| && offset <= v.files[i].size
  {
    var f := v.files[i];
    if f.size < offset + count then
      match Allocate(v, c, NewBlocks(f.size, offset, count))
      case Some(v') => Some(v'.(files := v'.files[i := f.(size := (f.size + count) % 0x1_0000_0000)]))
      case None => None
    else Some(v)
  }

  /** Every file has the blocks that its size asks for. */
  ghost predicate SizesCovered(v: Vol, chains: seq<seq<nat>>) {
    && |chains| == |v.files|
    && forall i :: 0 <= i < |chains| && v.files[i].name != "" ==> BlocksFor(v.files[i].size) <= |chains[i]|
  }

  lemma CeilingSum(a: nat, b: nat)
    requires b > 0
    ensures BlocksFor(a + b) <= BlocksFor(a) + (BLOCK_SIZE + b - 1) / BLOCK_SIZE - if a == 0 then 1 else 0
  {
  }

  /** The recorded size of a file is no part of what makes a volume well-formed. */
  lemma SizeIsFree(v: Vol, chains: seq<seq<nat>>, i: nat, f: File)
    requires WellFormed(v, chains) && i < |v.files|
    requires f.name == v.files[i].name && f.start == v.files[i].start
    ensures WellFormed(v.(files := v.files[i := f]), chains)
  {
    NamedUpdate(v.files, i, f);
  }

  lemma SizeIsBounded(v: Vol, chains: seq<seq<nat>>, i: nat, size: nat)
    requires WellFormed(v, chains) && i < |v.files| && v.files[i].name != "" && BlocksFor(size) <= |chains[i]|
    ensures size < 0x1000_0000
  {
    DistinctIsShort(chains[i], v.blocks);
  }

  /** The chains after a write at the end has extended chain i by the first k free blocks. */
  ghost function Appended(v: Vol, chains: seq<seq<nat>>, i: nat, k: nat): seq<seq<nat>>
    requires Sized(v) && i < |chains| && k <= |FreeList(v.fat, v.blocks)|
  {
    chains[i := chains[i] + FreeList(v.fat, v.blocks)[..k]]
  }

  function AppendedBlocks(size: nat, count: nat): nat {
    if count == 0 then 0 else NewBlocks(size, size, count)
  }

  lemma AppendNothing(v: Vol, chains: seq<seq<nat>>, i: nat)
    requires Sized(v) && i < |chains|
    ensures Appended(v, chains, i, 0) == chains
  {
    assert chains[i] + FreeList(v.fat, v.blocks)[..0] == chains[i];
  }

  lemma AppendGrows(v: Vol, chains: seq<seq<nat>>, i: nat, count: nat, k: nat, v1: Vol, v': Vol)
    requires WellFormed(v, chains) && SizesCovered(v, chains) && i < |v.files| && v.files[i].name != ""
    requires count > 0 && k == NewBlocks(v.files[i].size, v.files[i].size, count)
    requires Allocate(v, chains[i], k) == Some(v1)
    requires v' == v1.(files := v.files[i := v.files[i].(size := v.files[i].size + count)])
    ensures k <= |FreeList(v.fat, v.blocks)|
    ensures WellFormed(v', Appended(v, chains, i, k)) && SizesCovered(v', Appended(v, chains, i, k))
    ensures v.files[i].size + count < 0x1000_0000
    ensures FreeList(v'.fat, v'.blocks) == FreeList(v.fat, v.blocks)[k..]
  {
    hide FreeList, OwnChains, Covered, IsChain, LinkAll, Named, Disjoint, NewBlocks, BlocksFor;
    var f, chains' := v.files[i], Appended(v, chains, i, k);
    assert v1.files == v.files;
    AllocateKeepsWellFormed(v, chains, i, k);
    hide Allocate, WellFormed;
    AppendArithmetic(f.size, count);
    assert |chains'[i]| == |chains[i]| + k;
    SizeIsBounded(v1, chains', i, f.size + count);
    SizeIsFree(v1, chains', i, f.(size := f.size + count));
  }

  /** A write at the end of a file leaves it with blocks for its new size, which does not overflow. */
  lemma {:induction false} AppendCoversSize(v: Vol, chains: seq<seq<nat>>, i: nat, count: nat)
    requires WellFormed(v, chains) && SizesCovered(v, chains) && i < |v.files| && v.files[i].name != ""
    requires Write(v, chains[i], i, v.files[i].size, count).Some?
    ensures var v', size := Write(v, chains[i], i, v.files[i].size, count).value, v.files[i].size;
      var k := AppendedBlocks(size, count);
      && k <= |FreeList(v.fat, v.blocks)|
      && WellFormed(v', Appended(v, chains, i, k)) && SizesCovered(v', Appended(v, chains, i, k))
      && v'.files[i].size == size + count < 0x1000_0000
      && FreeList(v'.fat, v'.blocks) == FreeList(v.fat, v.blocks)[k..]
  {
    hide FreeList, Allocate, Appended, NewBlocks, BlocksFor, Named, Covered, Disjoint;
    var f := v.files[i];
    SizeIsBounded(v, chains, i, f.size);
    if count == 0 {
      AppendNothing(v, chains, i);
    } else {
      var k := NewBlocks(f.size, f.size, count);
      var v1 := Allocate(v, chains[i], k).value;
      AllocateKeepsFiles(v, chains[i], k);
      AppendGrows(v, chains, i, count, k, v1, v1.(files := v.files[i := f.(size := f.size + count)]));
    }
  }

  lemma AllocateKeepsFiles(v: Vol, c: seq<nat>, count: nat)
    requires Sized(v) && c != [] && InRange(c, |v.fat|) && Allocate(v, c, count).Some?
    ensures Allocate(v, c, count).value.files == v.files
    ensures count <= |FreeList(v.fat, v.blocks)|
  {
  }

  lemma AppendArithmetic(size: nat, count: nat)
    requires count > 0
    ensures BlocksFor(size + count) <= BlocksFor(size) + NewBlocks(size, size, count)
  {
    CeilingSum(size, count);
  }

  /** How many blocks a write can have been given bounds how far it runs past the end. */
  lemma GrowthIsBounded(v: Vol, c: seq<nat>, size: nat, offset: nat, count: nat)
    requires Sized(v) && c != [] && InRange(c, |v.fat|) && size < offset + count && offset <= size
    requires Allocate(v, c, NewBlocks(size, offset, count)).Some?
    ensures count + offset - size < 0x1000_0000 + BLOCK_SIZE
  {
    FreeInRange(v.fat, v.blocks);
    FreeListIncreases(v.fat, v.blocks);
    DistinctIsShort(FreeList(v.fat, v.blocks), v.blocks);
  }

  /** The size that a growing write records is not cut off at 32 bits. */
  lemma WriteIs(v: Vol, chains: seq<seq<nat>>, i: nat, offset: nat, count: nat)
    requires WellFormed(v, chains) && SizesCovered(v, chains) && i < |v.files| && v.files[i].name != ""
    requires offset <= v.files[i].size < offset + count
    requires Write(v, chains[i], i, offset, count).Some?
    ensures var f := v.files[i]; var r := Allocate(v, chains[i], NewBlocks(f.size, offset, count));
      && r.Some? && r.value.files == v.files
      && Write(v, chains[i], i, offset, count) == Some(r.value.(files := v.files[i := f.(size := f.size + count)]))
  {
    hide FreeList, Allocate, NewBlocks, BlocksFor, Named, Covered, Disjoint;
    var size := v.files[i].size;
    SizeIsBounded(v, chains, i, size);
    GrowthIsBounded(v, chains[i], size, offset, count);
    AllocateKeepsFiles(v, chains[i], NewBlocks(size, offset, count));
  }

  /**
   * A write that grows a file records the size that the written bytes need if and only if it starts exactly
   * at the end: the count is added to the size wherever the write starts.
   */
  lemma RecordedSizeExactly(v: Vol, chains: seq<seq<nat>>, i: nat, offset: nat, count: nat)
    requires WellFormed(v, chains) && SizesCovered(v, chains) && i < |v.files| && v.files[i].name != ""
    requires offset <= v.files[i].size < offset + count
    requires Write(v, chains[i], i, offset, count).Some?
    ensures Write(v, chains[i], i, offset, count).value.files[i].size == offset + count <==> offset == v.files[i].size
  {
    hide FreeList, Allocate, NewBlocks, BlocksFor, Named, Covered, Disjoint, Write;
    WriteIs(v, chains, i, offset, count);
  }

  /** Changing one file and its chain leaves every size covered if and only if that one is. */
  lemma OneCovered(v: Vol, chains: seq<seq<nat>>, i: nat, v': Vol, f: File, c: seq<nat>)
    requires SizesCovered(v, chains) && i < |v.files| && v'.files == v.files[i := f] && f.name != ""
    ensures |chains| == |v.files| && (SizesCovered(v', chains[i := c]) <==> BlocksFor(f.size) <= |c|)
  {
    hide BlocksFor;
    assert chains[i := c][i] == c && v'.files[i] == f;
    assert forall j :: 0 <= j < |chains| && j != i ==> chains[i := c][j] == chains[j] && v'.files[j] == v.files[j];
  }

  lemma FileShape(v: Vol, chains: seq<seq<nat>>, i: nat)
    requires WellFormed(v, chains) && i < |v.files| && v.files[i].name != ""
    ensures Sized(v) && v.blocks <= |v.fat| && |chains| == |v.files| && chains[i] != [] && InRange(chains[i], |v.fat|)
  {
    hide Covered, Disjoint, Named;
  }

  lemma AppendedLength(v: Vol, chains: seq<seq<nat>>, i: nat, k: nat)
    requires Sized(v) && i < |chains| && k <= |FreeList(v.fat, v.blocks)|
    ensures Appended(v, chains, i, k) == chains[i := chains[i] + FreeList(v.fat, v.blocks)[..k]]
    ensures |chains[i] + FreeList(v.fat, v.blocks)[..k]| == |chains[i]| + k
  {
    hide FreeList;
  }

  /**
   * A write that grows a file keeps the volume well-formed, and leaves the file with the blocks that its recorded
   * size asks for if and only if the chain and the new blocks make up as many.
   */
  lemma WriteCoversExactly(v: Vol, chains: seq<seq<nat>>, i: nat, offset: nat, count: nat)
    requires WellFormed(v, chains) && SizesCovered(v, chains) && i < |v.files| && v.files[i].name != ""
    requires offset <= v.files[i].size < offset + count
    requires Write(v, chains[i], i, offset, count).Some?
    ensures var size, v' := v.files[i].size, Write(v, chains[i], i, offset, count).value;
      var k := NewBlocks(size, offset, count);
      && k <= |FreeList(v.fat, v.blocks)| && WellFormed(v', Appended(v, chains, i, k))
      && (SizesCovered(v', Appended(v, chains, i, k)) <==> BlocksFor(size + count) <= |chains[i]| + k)
  {
    hide *;
    FileShape(v, chains, i);
    var f, c := v.files[i], chains[i];
    var k := NewBlocks(f.size, offset, count);
    WriteIs(v, chains, i, offset, count);
    var v1 := Allocate(v, c, k).value;
    var f' := f.(size := f.size + count);
    AllocateKeepsFiles(v, c, k);
    AllocateKeepsWellFormed(v, chains, i, k);
    AppendedLength(v, chains, i, k);
    SizeIsFree(v1, Appended(v, chains, i, k), i, f');
    OneCovered(v, chains, i, v1.(files := v.files[i := f']), f', c + FreeList(v.fat, v.blocks)[..k]);
  }
}
