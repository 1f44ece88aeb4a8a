/** File chains threaded through the file allocation table, and the allocator that extends one of them. */
module Fat {
  import opened Layout

  /** Distinct indices below n, each entry naming the next and the last one marked as the end. */
  ghost predicate IsChain(fat: seq<nat>, n: nat, c: seq<nat>)
    requires n <= |fat|
  {
    && c != [] && InRange(c, n) && Distinct(c)
    && (forall i, j :: 0 <= i < j < |c| && j == i + 1 ==> fat[c[i]] == c[j])
    && fat[c[|c| - 1]] == EOC
  }

  ghost predicate InRange(c: seq<nat>, n: nat) {
    forall i :: 0 <= i < |c| ==> c[i] < n
  }

  ghost predicate Distinct(c: seq<nat>) {
    forall i, j :: 0 <= i < j < |c| ==> c[i] != c[j]
  }

  /** The free indices below n, in increasing order. */
  ghost function FreeList(fat: seq<nat>, n: nat): (s: seq<nat>)
    requires n <= |fat|
    ensures forall b: nat :: b in s <==> b < n && fat[b] == 0
  {
    if n == 0 then []
    else if fat[n - 1] == 0 then FreeList(fat, n - 1) + [n - 1]
    else FreeList(fat, n - 1)
  }

  /** The free list is strictly increasing, so its head is the least free index. */
  lemma {:induction false} FreeListIncreases(fat: seq<nat>, n: nat)
    requires n <= |fat|
    ensures forall i, j :: 0 <= i < j < |FreeList(fat, n)| ==> FreeList(fat, n)[i] < FreeList(fat, n)[j]
  {
    if n > 0 {
      FreeListIncreases(fat, n - 1);
      var s := FreeList(fat, n - 1);
      forall i | 0 <= i < |s| ensures s[i] < n - 1 { assert s[i] in s; }
    }
  }

  /** Occupying the least free index f, and changing no other entry to or from zero, removes the head. */
  lemma {:induction false} FreeListTail(fat: seq<nat>, fat': seq<nat>, n: nat, f: nat)
    requires n <= |fat| == |fat'|
    requires f < |fat| && fat[f] == 0 && fat'[f] != 0 && forall b :: 0 <= b < f && b < n ==> fat[b] != 0
    requires forall b :: 0 <= b < n && b != f ==> (fat[b] == 0 <==> fat'[b] == 0)
    ensures f < n ==> FreeList(fat, n) != [] && FreeList(fat, n)[0] == f && FreeList(fat', n) == FreeList(fat, n)[1..]
    ensures n <= f ==> FreeList(fat, n) == FreeList(fat', n) == []
  {
    if n > 0 {
      FreeListTail(fat, fat', n - 1, f);
      if f == n - 1 {
        assert FreeList(fat, n) == [f];
      }
    }
  }

  lemma HeadIsLeast(fat: seq<nat>, n: nat)
    requires n <= |fat| && FreeList(fat, n) != []
    ensures var f := FreeList(fat, n)[0]; f < n && fat[f] == 0 && forall b :: 0 <= b < f ==> fat[b] != 0
  {
    var s := FreeList(fat, n);
    FreeListIncreases(fat, n);
    assert s[0] in s;
    forall b: nat | b < s[0] ensures fat[b] != 0 {
      forall j | 0 <= j < |s| ensures s[j] != b {}
      assert b !in s;
    }
  }

  /** The links of a chain that avoids block 0 are not zero, so a chain never visits a free block. */
  lemma ChainIsOccupied(fat: seq<nat>, n: nat, c: seq<nat>)
    requires n <= |fat| && IsChain(fat, n, c) && 0 !in c
    ensures forall i :: 0 <= i < |c| ==> fat[c[i]] != 0
  {
    forall i | 0 <= i < |c| ensures fat[c[i]] != 0 {
      if i + 1 < |c| {
        assert fat[c[i]] == c[i + 1] && c[i + 1] in c;
      }
    }
  }

  /** Linking a free block to the end of a chain makes a longer chain. */
  lemma ExtendChain(fat: seq<nat>, n: nat, c: seq<nat>, f: nat)
    requires n <= |fat| && IsChain(fat, n, c) && 0 !in c && f < n && fat[f] == 0 && f != 0
    ensures f !in c && 0 !in c + [f]
    ensures IsChain(fat[c[|c| - 1] := f][f := EOC], n, c + [f])
  {
    ChainIsOccupied(fat, n, c);
  }

  lemma {:induction false} ChainsAgree(fat: seq<nat>, n: nat, c: seq<nat>, d: seq<nat>, k: nat)
    requires n <= |fat| && IsChain(fat, n, c) && IsChain(fat, n, d) && c[0] == d[0]
    requires k <= |c| && k <= |d|
    ensures forall i :: 0 <= i < k ==> c[i] == d[i]
  {
    if k > 1 {
      ChainsAgree(fat, n, c, d, k - 1);
      assert c[k - 1] == fat[c[k - 2]] == fat[d[k - 2]] == d[k - 1];
    }
  }

  /** Following a chain meets the end marker at its last block and no earlier. */
  lemma EndsOnce(fat: seq<nat>, n: nat, c: seq<nat>, i: nat)
    requires n <= |fat| && n <= EOC && IsChain(fat, n, c) && i < |c|
    ensures fat[c[i]] == EOC <==> i == |c| - 1
    ensures i < |c| - 1 ==> fat[c[i]] == c[i + 1]
  {
  }

  /** A chain is determined by where it starts. */
  lemma ChainIsUnique(fat: seq<nat>, n: nat, c: seq<nat>, d: seq<nat>)
    requires n <= |fat| && n <= EOC && IsChain(fat, n, c) && IsChain(fat, n, d) && c[0] == d[0]
    ensures c == d
  {
    var k := if |c| <= |d| then |c| else |d|;
    ChainsAgree(fat, n, c, d, k);
    EndsOnce(fat, n, c, k - 1);
    EndsOnce(fat, n, d, k - 1);
  }

  /** The chain never visits more blocks than there are. */
  lemma {:induction false} DistinctIsShort(c: seq<nat>, n: nat)
    requires Distinct(c) && InRange(c, n)
    ensures |c| <= n
  {
    if c != [] {
      assert c[0] < n;
      if n - 1 in c {
        var k :| 0 <= k < |c| && c[k] == n - 1;
        DistinctIsShort(c[..k] + c[k + 1..], n - 1);
      } else {
        forall i | 0 <= i < |c| ensures c[i] < n - 1 { assert c[i] in c; }
        DistinctIsShort(c, n - 1);
      }
    }
  }

  /** Links the blocks of fs one after the other behind block b, marking each as the end in turn. */
  ghost function LinkAll(fat: seq<nat>, b: nat, fs: seq<nat>): (fat': seq<nat>)
    requires b < |fat| && InRange(fs, |fat|)
    ensures |fat'| == |fat|
    ensures forall x :: 0 <= x < |fat| && x != b && x !in fs ==> fat'[x] == fat[x]
    decreases |fs|
  {
    if fs == [] then fat else LinkAll(fat[b := fs[0]][fs[0] := EOC], fs[0], fs[1..])
  }

  lemma LinkNone(fat: seq<nat>, b: nat)
    requires b < |fat|
    ensures LinkAll(fat, b, []) == fat
  {
  }

  lemma {:induction false} LinkLast(fat: seq<nat>, b: nat, fs: seq<nat>, f: nat)
    requires b < |fat| && InRange(fs, |fat|) && f < |fat|
    ensures InRange(fs + [f], |fat|)
    ensures LinkAll(fat, b, fs + [f]) == LinkAll(fat, b, fs)[(if fs == [] then b else fs[|fs| - 1]) := f][f := EOC]
    decreases |fs|
  {
    if fs == [] {
      assert [f][1..] == [] && fs + [f] == [f];
    } else {
      LinkLast(fat[b := fs[0]][fs[0] := EOC], fs[0], fs[1..], f);
      assert (fs + [f])[1..] == fs[1..] + [f];
    }
  }

  /** Linking the least free block behind a chain: the chain grows by it, and the free list loses its head. */
  lemma LinkOne(fat: seq<nat>, n: nat, c: seq<nat>)
    requires n <= |fat| && IsChain(fat, n, c) && 0 !in c && fat[0] != 0 && FreeList(fat, n) != []
    ensures var f := FreeList(fat, n)[0];
      && 0 < f < n && fat[f] == 0 && f !in c && 0 !in c + [f]
      && IsChain(fat[c[|c| - 1] := f][f := EOC], n, c + [f])
      && FreeList(fat[c[|c| - 1] := f][f := EOC], n) == FreeList(fat, n)[1..]
  {
    hide FreeList;
    HeadIsLeast(fat, n);
    var f := FreeList(fat, n)[0];
    ChainIsOccupied(fat, n, c);
    ExtendChain(fat, n, c, f);
    hide IsChain;
    FreeListTail(fat, fat[c[|c| - 1] := f][f := EOC], n, f);
  }

  /** Linking the first free blocks behind a chain appends them to it and takes them off the free list. */
  lemma {:induction false} LinkAllExtends(fat: seq<nat>, n: nat, c: seq<nat>, count: nat)
    requires n <= |fat| && IsChain(fat, n, c) && 0 !in c && fat[0] != 0 && count <= |FreeList(fat, n)|
    ensures var fs := FreeList(fat, n)[..count];
      && InRange(fs, |fat|) && 0 !in c + fs
      && IsChain(LinkAll(fat, c[|c| - 1], fs), n, c + fs)
      && FreeList(LinkAll(fat, c[|c| - 1], fs), n) == FreeList(fat, n)[count..]
    decreases count
  {
    hide FreeList, IsChain;
    LastInRange(fat, n, c);
    var free := FreeList(fat, n);
    var fs := free[..count];
    FreeInRange(fat, n);
    if count == 0 {
      assert c + fs == c;
    } else {
      LinkOne(fat, n, c);
      var f := free[0];
      var fat1 := fat[c[|c| - 1] := f][f := EOC];
      assert fat1[0] != 0;
      LinkAllExtends(fat1, n, c + [f], count - 1);
      assert fs[1..] == free[1..][..count - 1];
      assert c + fs == c + [f] + fs[1..];
      assert free[1..][count - 1..] == free[count..];
    }
  }

  lemma LastInRange(fat: seq<nat>, n: nat, c: seq<nat>)
    requires n <= |fat| && IsChain(fat, n, c)
    ensures c != [] && c[|c| - 1] < n
  {
  }

  lemma FreeInRange(fat: seq<nat>, n: nat)
    requires n <= |fat|
    ensures InRange(FreeList(fat, n), n)
  {
    forall i | 0 <= i < |FreeList(fat, n)| ensures FreeList(fat, n)[i] < n {
      assert FreeList(fat, n)[i] in FreeList(fat, n);
    }
  }
}
