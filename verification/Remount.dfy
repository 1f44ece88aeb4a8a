/** What unmounting and mounting again keeps of a volume. */
module Remount {
  import opened DiskFormat
  import opened Fat
  import opened Volume
  import opened VolumeRuns

  /** The volume in the structures of a mounted disk, with the count of files that is kept beside them. */
  ghost function VolOf(m: Mounted, total: nat): Vol {
    Vol(m.fat, m.sb.totalData, FilesOf(m.root), total)
  }

  /** A directory is the same to the operations whatever lies behind the first NUL of its names. */
  lemma TerminatedFiles(root: seq<Entry>, root': seq<Entry>)
    requires |root'| == |root| && forall i :: 0 <= i < |root| ==> root'[i] == Terminated(root[i])
    ensures FilesOf(root') == FilesOf(root)
  {
    hide CString, Text;
    forall i | 0 <= i < |root| ensures FileOf(root'[i]) == FileOf(root[i]) {
      TerminatedName(root[i]);
    }
  }

  /** The volume found on mounting again is the one that was unmounted. */
  lemma RemountKeepsVolume(before: seq<Block>, m: Mounted, p: Padding, buffer: nat -> Block, total: nat)
    requires Fits(m) && PaddingFits(p) && Placed(m.sb, |before|)
    ensures VolOf(Mount(Unmounted(before, m, p), buffer), total) == VolOf(m, total)
  {
    hide Mount, Unmounted, Terminated, FilesOf, Consistent, PaddingFits;
    MountAfterUmount(before, m, p, buffer);
    TerminatedFiles(m.root, Mount(Unmounted(before, m, p), buffer).root);
  }

  /** The volume as mounting counts its files, from what the memory of the count held. */
  ghost function Counted(m: Mounted, count: nat): Vol {
    VolOf(m, (count + Named(FilesOf(m.root))) % 0x1_0000)
  }

  /** What every run keeps holds of a volume as mounted if and only if the memory of its count held 0. */
  lemma CountedExactly(m: Mounted, total: nat, chains: seq<seq<nat>>, count: nat)
    requires count < 0x1_0000 && Inv(State(VolOf(m, total), chains))
    ensures Inv(State(Counted(m, count), chains)) <==> count == 0
  {
    NamedBound(FilesOf(m.root));
    hide FilesOf, Named, IsChain, FreeList, ChainTotal, BlocksFor, InSome;
  }

  lemma CountedSame(m: Mounted, m': Mounted, count: nat)
    requires VolOf(m', 0) == VolOf(m, 0)
    ensures Counted(m', count) == Counted(m, count)
  {
    hide FilesOf, Named;
  }

  /**
   * What every run keeps also holds after unmounting and mounting again if and only if the memory in which mounting
   * counts the files happens to hold 0.
   */
  lemma RemountExactly(before: seq<Block>, m: Mounted, p: Padding, buffer: nat -> Block, total: nat,
                       chains: seq<seq<nat>>, count: nat)
    requires Fits(m) && PaddingFits(p) && Placed(m.sb, |before|) && count < 0x1_0000
    requires Inv(State(VolOf(m, total), chains))
    ensures Inv(State(Counted(Mount(Unmounted(before, m, p), buffer), count), chains)) <==> count == 0
  {
    hide *;
    RemountKeepsVolume(before, m, p, buffer, 0);
    CountedSame(m, Mount(Unmounted(before, m, p), buffer), count);
    CountedExactly(m, total, chains, count);
  }

  // Any number of remounts

  /** What an unmounting and the mounting after it find in memory. */
  datatype Cycle = Cycle(p: Padding, buffer: nat -> Block, count: nat)

  ghost predicate CyclesFit(cycles: seq<Cycle>) {
    forall i :: 0 <= i < |cycles| ==> PaddingFits(cycles[i].p) && cycles[i].count < 0x1_0000
  }

  /** The disk and what is mounted of it after all cycles. */
  ghost function Remounted(before: seq<Block>, m: Mounted, cycles: seq<Cycle>): (r: (seq<Block>, Mounted))
    requires Fits(m) && CyclesFit(cycles)
    ensures Fits(r.1)
  {
    if cycles == [] then (before, m)
    else
      var n := |cycles| - 1;
      var (blocks, now) := Remounted(before, m, cycles[..n]);
      var after := Unmounted(blocks, now, cycles[n].p);
      (MountFits(after, cycles[n].buffer); (after, Mount(after, cycles[n].buffer)))
  }

  /** However often a disk is remounted, its volume, its superblock and the blocks of its data stay what they were. */
  lemma {:induction false} RemountsKeepVolume(before: seq<Block>, m: Mounted, cycles: seq<Cycle>, total: nat)
    requires Fits(m) && CyclesFit(cycles) && Placed(m.sb, |before|)
    ensures var (after, m') := Remounted(before, m, cycles);
      && VolOf(m', total) == VolOf(m, total) && m'.sb == m.sb
      && (Consistent(m', |after|) <==> Consistent(m, |before|))
      && |after| == |before| && forall i :: m.sb.fatBlocks < i < |before| && i != m.sb.rootIndex ==> after[i] == before[i]
  {
    if cycles != [] {
      var n := |cycles| - 1;
      var (blocks, now) := Remounted(before, m, cycles[..n]);
      RemountsKeepVolume(before, m, cycles[..n], total);
      hide Fits, Unmounted, Mount, VolOf, Consistent, PaddingFits;
      MountAfterUmount(blocks, now, cycles[n].p, cycles[n].buffer);
      RemountKeepsVolume(blocks, now, cycles[n].p, cycles[n].buffer, total);
    }
  }

  /**
   * After any number of remounts what every run keeps holds if and only if the count of the last one started from 0:
   * the counts of the others leave no trace.
   */
  lemma RemountsExactly(before: seq<Block>, m: Mounted, cycles: seq<Cycle>, total: nat, chains: seq<seq<nat>>)
    requires Fits(m) && CyclesFit(cycles) && cycles != [] && Placed(m.sb, |before|)
    requires Inv(State(VolOf(m, total), chains))
    ensures var count := cycles[|cycles| - 1].count;
      Inv(State(Counted(Remounted(before, m, cycles).1, count), chains)) <==> count == 0
  {
    hide Inv, Remounted, Fits, Counted, VolOf, PaddingFits;
    var count := cycles[|cycles| - 1].count;
    RemountsKeepVolume(before, m, cycles, 0);
    CountedSame(m, Remounted(before, m, cycles).1, count);
    CountedExactly(m, total, chains, count);
  }
}
