/** Whole runs of reductions: what remains, where it came from, and how much energy went. */
module SeamRuns {
  import opened Grids
  import opened SeamTable
  import opened SeamRemoval

  type Plan = seq<Axis>

  function HeightAfter(h: nat, plan: Plan): int {
    if plan == [] then h
    else HeightAfter(h, plan[..|plan| - 1]) - if plan[|plan| - 1].Height? then 1 else 0
  }

  function WidthAfter(w: nat, plan: Plan): int {
    if plan == [] then w
    else WidthAfter(w, plan[..|plan| - 1]) - if plan[|plan| - 1].Width? then 1 else 0
  }

  /** Every reduction of the plan meets an image that it can be applied to. */
  predicate Feasible(h: nat, w: nat, plan: Plan)
    ensures Feasible(h, w, plan) ==> HeightAfter(h, plan) >= 0 && WidthAfter(w, plan) >= 0
  {
    plan == [] ||
    var init := plan[..|plan| - 1];
    Feasible(h, w, init) && Reducible(HeightAfter(h, init), WidthAfter(w, init), plan[|plan| - 1])
  }

  /** The grid g after the reductions of the plan, each along the seam of the energies at that point. */
  ghost function Run<T>(e: Grid<real>, g: Grid<T>, w: nat, plan: Plan): (d: Grid<T>)
    requires Wide(e, w) && Wide(g, w) && |g| == |e| && Feasible(|e|, w, plan)
    ensures |d| == HeightAfter(|e|, plan) && Wide(d, WidthAfter(w, plan))
    decreases plan
  {
    if plan == [] then g
    else
      var init := plan[..|plan| - 1];
      Reduce(Run(e, e, w, init), Run(e, g, w, init), WidthAfter(w, init), plan[|plan| - 1])
  }

  /** The energies that the plan has removed: the cost of the chosen seam at each reduction, summed. */
  ghost function RemovedEnergy(e: Grid<real>, w: nat, plan: Plan): real
    requires Wide(e, w) && Feasible(|e|, w, plan)
  {
    if plan == [] then 0.0
    else
      var init := plan[..|plan| - 1];
      RemovedEnergy(e, w, init) + ChosenCost(Run(e, e, w, init), WidthAfter(w, init), plan[|plan| - 1])
  }

  /** What the cells of the chosen seam cost. */
  ghost function ChosenCost(e: Grid<real>, w: nat, axis: Axis): real
    requires Wide(e, w) && Reducible(|e|, w, axis)
  {
    ChosenIsPath(e, w, axis);
    if axis.Width? then Cost(e, w, ChosenSeam(e, w, axis)) else HorizontalCost(e, w, ChosenSeam(e, w, axis))
  }

  lemma ChosenIsPath(e: Grid<real>, w: nat, axis: Axis)
    requires Wide(e, w) && Reducible(|e|, w, axis)
    ensures IsPath(ChosenSeam(e, w, axis), if axis.Width? then w else |e|)
    ensures IsMinimumSeam(e, w, axis, ChosenSeam(e, w, axis), SeamCost(e, w, axis))
  {
    ReductionRemovesMinimumSeam(e, w, axis);
    hide IsPath, Cost, HorizontalCost;
  }

  /** The remaining energy is the original energy less the minimum seam costs removed on the way. */
  lemma {:induction false} EnergyConservation(e: Grid<real>, w: nat, plan: Plan)
    requires Wide(e, w) && Feasible(|e|, w, plan)
    ensures Total(Run(e, e, w, plan)) == Total(e) - RemovedEnergy(e, w, plan)
    decreases plan
  {
    if plan != [] {
      var init, axis := plan[..|plan| - 1], plan[|plan| - 1];
      EnergyConservation(e, w, init);
      ChosenIsPath(Run(e, e, w, init), WidthAfter(w, init), axis);
      hide Reduce, Total, ChosenSeam, Cost, HorizontalCost, IsPath;
    }
  }

  /** The cell that a reduction moves to (i, j). */
  ghost function Source(e: Grid<real>, w: nat, axis: Axis, i: nat, j: nat): (int, int)
    requires Wide(e, w) && Reducible(|e|, w, axis)
    requires if axis.Width? then i < |e| && j < w - 1 else i < |e| - 1 && j < w
  {
    var s := ChosenSeam(e, w, axis);
    match axis
    case Width => (i, if j < s[i] then j else j + 1)
    case Height => (if i < s[j] then i else i + 1, j)
  }

  lemma SourceCell<T>(e: Grid<real>, g: Grid<T>, w: nat, axis: Axis, i: nat, j: nat)
    requires Wide(e, w) && Wide(g, w) && |g| == |e| && Reducible(|e|, w, axis)
    requires if axis.Width? then i < |e| && j < w - 1 else i < |e| - 1 && j < w
    ensures var (r, c) := Source(e, w, axis, i, j);
      0 <= r < |e| && 0 <= c < w && Reduce(e, g, w, axis)[i][j] == g[r][c]
  {
    hide ChosenSeam;
  }

  /** The position in the original image of the cell that the run leaves at (i, j). */
  ghost function Origin(e: Grid<real>, w: nat, plan: Plan, i: nat, j: nat): (o: (nat, nat))
    requires Wide(e, w) && Feasible(|e|, w, plan)
    requires i < HeightAfter(|e|, plan) && j < WidthAfter(w, plan)
    ensures o.0 < |e| && o.1 < w
    decreases plan
  {
    if plan == [] then (i, j)
    else
      var init, axis := plan[..|plan| - 1], plan[|plan| - 1];
      var before := Run(e, e, w, init);
      SourceCell(before, before, WidthAfter(w, init), axis, i, j);
      var (r, c) := Source(before, WidthAfter(w, init), axis, i, j);
      Origin(e, w, init, r, c)
  }

  /** Every cell of the result holds what its origin held, in the colour image and in the energies alike. */
  lemma {:induction false} Provenance<T>(e: Grid<real>, g: Grid<T>, w: nat, plan: Plan, i: nat, j: nat)
    requires Wide(e, w) && Wide(g, w) && |g| == |e| && Feasible(|e|, w, plan)
    requires i < HeightAfter(|e|, plan) && j < WidthAfter(w, plan)
    ensures var (r, c) := Origin(e, w, plan, i, j); Run(e, g, w, plan)[i][j] == g[r][c]
    decreases plan
  {
    if plan != [] {
      hide Source, Reduce;
      var init, axis := plan[..|plan| - 1], plan[|plan| - 1];
      var before := Run(e, e, w, init);
      SourceCell(before, before, WidthAfter(w, init), axis, i, j);
      SourceCell(before, Run(e, g, w, init), WidthAfter(w, init), axis, i, j);
      var (r, c) := Source(before, WidthAfter(w, init), axis, i, j);
      Provenance(e, g, w, init, r, c);
    }
  }

  lemma SourceIsInjective(e: Grid<real>, w: nat, axis: Axis, i: nat, j: nat, i': nat, j': nat)
    requires Wide(e, w) && Reducible(|e|, w, axis)
    requires if axis.Width? then i < |e| && j < w - 1 else i < |e| - 1 && j < w
    requires if axis.Width? then i' < |e| && j' < w - 1 else i' < |e| - 1 && j' < w
    ensures (i, j) != (i', j') ==> Source(e, w, axis, i, j) != Source(e, w, axis, i', j')
    ensures axis.Width? ==> Source(e, w, axis, i, j).0 == i && (i == i' && j < j' ==>
      Source(e, w, axis, i, j).1 < Source(e, w, axis, i', j').1)
    ensures axis.Height? ==> Source(e, w, axis, i, j).1 == j && (j == j' && i < i' ==>
      Source(e, w, axis, i, j).0 < Source(e, w, axis, i', j').0)
  {
    hide ChosenSeam;
  }

  /** No two cells of the result come from the same place. */
  lemma {:induction false} OriginIsInjective(e: Grid<real>, w: nat, plan: Plan, i: nat, j: nat, i': nat, j': nat)
    requires Wide(e, w) && Feasible(|e|, w, plan)
    requires i < HeightAfter(|e|, plan) && j < WidthAfter(w, plan)
    requires i' < HeightAfter(|e|, plan) && j' < WidthAfter(w, plan)
    requires (i, j) != (i', j')
    ensures Origin(e, w, plan, i, j) != Origin(e, w, plan, i', j')
    decreases plan
  {
    if plan != [] {
      hide Source, Run;
      var init, axis := plan[..|plan| - 1], plan[|plan| - 1];
      var before, w' := Run(e, e, w, init), WidthAfter(w, init);
      SourceCell(before, before, w', axis, i, j);
      SourceCell(before, before, w', axis, i', j');
      SourceIsInjective(before, w', axis, i, j, i', j');
      var (r, c) := Source(before, w', axis, i, j);
      var (r', c') := Source(before, w', axis, i', j');
      OriginIsInjective(e, w, init, r, c, r', c');
    }
  }

  /** The plan never reduces along any other axis. */
  ghost predicate Along(plan: Plan, axis: Axis) {
    forall k :: 0 <= k < |plan| ==> plan[k] == axis
  }

  /** A run in width only keeps every cell in its row, and the cells of a row in their order. */
  lemma {:induction false} WidthRunKeepsOrder(e: Grid<real>, w: nat, plan: Plan, i: nat, j: nat, k: nat)
    requires Wide(e, w) && Feasible(|e|, w, plan) && Along(plan, Width)
    requires i < HeightAfter(|e|, plan) && j < k < WidthAfter(w, plan)
    ensures Origin(e, w, plan, i, j).0 == Origin(e, w, plan, i, k).0 == i
    ensures Origin(e, w, plan, i, j).1 < Origin(e, w, plan, i, k).1
    decreases plan
  {
    if plan != [] {
      hide Source, Run;
      var init := plan[..|plan| - 1];
      var before, w' := Run(e, e, w, init), WidthAfter(w, init);
      SourceCell(before, before, w', Width, i, j);
      SourceCell(before, before, w', Width, i, k);
      SourceIsInjective(before, w', Width, i, j, i, k);
      SourceIsInjective(before, w', Width, i, k, i, j);
      WidthRunKeepsOrder(e, w, init, i, Source(before, w', Width, i, j).1, Source(before, w', Width, i, k).1);
    }
  }

  /** A run in height only keeps every cell in its column, and the cells of a column in their order. */
  lemma {:induction false} HeightRunKeepsOrder(e: Grid<real>, w: nat, plan: Plan, i: nat, k: nat, j: nat)
    requires Wide(e, w) && Feasible(|e|, w, plan) && Along(plan, Height)
    requires i < k < HeightAfter(|e|, plan) && j < WidthAfter(w, plan)
    ensures Origin(e, w, plan, i, j).1 == Origin(e, w, plan, k, j).1 == j
    ensures Origin(e, w, plan, i, j).0 < Origin(e, w, plan, k, j).0
    decreases plan
  {
    if plan != [] {
      hide Source, Run;
      var init := plan[..|plan| - 1];
      var before, w' := Run(e, e, w, init), WidthAfter(w, init);
      SourceCell(before, before, w', Height, i, j);
      SourceCell(before, before, w', Height, k, j);
      SourceIsInjective(before, w', Height, i, j, k, j);
      SourceIsInjective(before, w', Height, k, j, i, j);
      HeightRunKeepsOrder(e, w, init, Source(before, w', Height, i, j).0, Source(before, w', Height, k, j).0, j);
    }
  }

  // The three resizing experiments

  /** A plan that leaves at least one row and one column never meets an image too small for its next step. */
  lemma {:induction false} LargeEnough(h: nat, w: nat, plan: Plan)
    requires HeightAfter(h, plan) >= 1 && WidthAfter(w, plan) >= 1
    ensures Feasible(h, w, plan)
  {
    if plan != [] {
      LargeEnough(h, w, plan[..|plan| - 1]);
    }
  }

  lemma {:induction false} FeasiblePrefix(h: nat, w: nat, plan: Plan, k: nat)
    requires Feasible(h, w, plan) && k <= |plan|
    ensures Feasible(h, w, plan[..k])
    ensures k < |plan| ==> Reducible(HeightAfter(h, plan[..k]), WidthAfter(w, plan[..k]), plan[k])
    decreases |plan|
  {
    var n := |plan| - 1;
    if k == |plan| {
      assert plan[..k] == plan;
    } else if k == n {
      FeasiblePrefix(h, w, plan[..n], n);
    } else {
      FeasiblePrefix(h, w, plan[..n], k);
      assert plan[..n][..k] == plan[..k];
    }
  }

  /** (r, re) is what the first k reductions of the plan make of the image and its energies. */
  ghost predicate Reached<C>(im: array2<C>, energy: array2<real>, plan: Plan, k: nat, r: array2<C>, re: array2<real>)
    reads im, energy, r, re
  {
    && k <= |plan|
    && im.Length0 == energy.Length0 && im.Length1 == energy.Length1
    && r.Length0 == re.Length0 && r.Length1 == re.Length1
    && Feasible(im.Length0, im.Length1, plan)
    && Feasible(im.Length0, im.Length1, plan[..k])
    && Of(r) == Run(Of(energy), Of(im), im.Length1, plan[..k])
    && Of(re) == Run(Of(energy), Of(energy), im.Length1, plan[..k])
    && r.Length0 == HeightAfter(im.Length0, plan[..k])
    && r.Length1 == WidthAfter(im.Length1, plan[..k])
  }

  lemma Start<C>(im: array2<C>, energy: array2<real>, plan: Plan)
    requires im.Length0 == energy.Length0 && im.Length1 == energy.Length1
    requires Feasible(im.Length0, im.Length1, plan)
    ensures Reached(im, energy, plan, 0, im, energy)
  {
    assert plan[..0] == [];
  }

  lemma Advance<C>(im: array2<C>, energy: array2<real>, plan: Plan, k: nat,
                   r: array2<C>, re: array2<real>, r': array2<C>, re': array2<real>)
    requires Reached(im, energy, plan, k, r, re) && k < |plan| && Reducible(r.Length0, r.Length1, plan[k])
    requires Of(r') == Reduce(Of(re), Of(r), r.Length1, plan[k])
    requires Of(re') == Reduce(Of(re), Of(re), r.Length1, plan[k])
    requires r'.Length0 == re'.Length0 == if plan[k].Height? then r.Length0 - 1 else r.Length0
    requires r'.Length1 == re'.Length1 == if plan[k].Width? then r.Length1 - 1 else r.Length1
    ensures Reached(im, energy, plan, k + 1, r', re')
  {
    hide Reduce;
    assert plan[..k + 1][..k] == plan[..k];
    FeasiblePrefix(im.Length0, im.Length1, plan, k + 1);
  }

  method Narrow<C(0)>(ghost im: array2<C>, ghost energy: array2<real>, ghost plan: Plan, ghost k: nat, r: array2<C>, re: array2<real>)
    returns (r': array2<C>, re': array2<real>)
    requires Reached(im, energy, plan, k, r, re) && k < |plan| && plan[k] == Width
    ensures Reached(im, energy, plan, k + 1, r', re')
  {
    FeasiblePrefix(im.Length0, im.Length1, plan, k);
    r', re' := DecreaseWidth(r, re);
    Advance(im, energy, plan, k, r, re, r', re');
  }

  method Flatten<C(0)>(ghost im: array2<C>, ghost energy: array2<real>, ghost plan: Plan, ghost k: nat, r: array2<C>, re: array2<real>)
    returns (r': array2<C>, re': array2<real>)
    requires Reached(im, energy, plan, k, r, re) && k < |plan| && plan[k] == Height
    ensures Reached(im, energy, plan, k + 1, r', re')
  {
    FeasiblePrefix(im.Length0, im.Length1, plan, k);
    r', re' := DecreaseHeight(r, re);
    Advance(im, energy, plan, k, r, re, r', re');
  }

  /** 20 reductions in width, then 40 in height. */
  ghost function PlanOne(): Plan {
    seq(60, i => if i < 20 then Width else Height)
  }

  /** A first reduction in width, then 59 times one in width followed by one in height. */
  ghost function PlanTwo(): Plan {
    seq(119, i => if i == 0 || i % 2 == 1 then Width else Height)
  }

  ghost function PlanThree(): Plan {
    seq(100, i => Height)
  }

  method ResizeTestOne<C(0)>(im: array2<C>, energy: array2<real>) returns (r: array2<C>, re: array2<real>)
    requires im.Length0 == energy.Length0 && im.Length1 == energy.Length1
    requires Feasible(im.Length0, im.Length1, PlanOne())
    ensures Of(r) == Run(Of(energy), Of(im), im.Length1, PlanOne())
    ensures Of(re) == Run(Of(energy), Of(energy), im.Length1, PlanOne())
  {
    ghost var plan := PlanOne();
    hide Feasible, Run, HeightAfter, WidthAfter;
    Start(im, energy, plan);
    r, re := im, energy;
    for i := 1 to 21
      invariant Reached(im, energy, plan, i - 1, r, re)
    {
      r, re := Narrow(im, energy, plan, i - 1, r, re);
    }
    for i := 1 to 41
      invariant Reached(im, energy, plan, 19 + i, r, re)
    {
      r, re := Flatten(im, energy, plan, 19 + i, r, re);
    }
    assert plan[..60] == plan;
  }

  method ResizeTestTwo<C(0)>(im: array2<C>, energy: array2<real>) returns (r: array2<C>, re: array2<real>)
    requires im.Length0 == energy.Length0 && im.Length1 == energy.Length1
    requires Feasible(im.Length0, im.Length1, PlanTwo())
    ensures Of(r) == Run(Of(energy), Of(im), im.Length1, PlanTwo())
    ensures Of(re) == Run(Of(energy), Of(energy), im.Length1, PlanTwo())
  {
    ghost var plan := PlanTwo();
    hide Feasible, Run, HeightAfter, WidthAfter;
    Start(im, energy, plan);
    r, re := im, energy;
    for i := 1 to 61
      invariant Reached(im, energy, plan, if i == 1 then 0 else 2 * i - 3, r, re)
    {
      if i == 1 {
        r, re := Narrow(im, energy, plan, 0, r, re);
      } else {
        r, re := Narrow(im, energy, plan, 2 * i - 3, r, re);
        r, re := Flatten(im, energy, plan, 2 * i - 2, r, re);
      }
    }
    assert plan[..119] == plan;
  }

  method ResizeTestThree<C(0)>(im: array2<C>, energy: array2<real>) returns (r: array2<C>, re: array2<real>)
    requires im.Length0 == energy.Length0 && im.Length1 == energy.Length1
    requires Feasible(im.Length0, im.Length1, PlanThree())
    ensures Of(r) == Run(Of(energy), Of(im), im.Length1, PlanThree())
    ensures Of(re) == Run(Of(energy), Of(energy), im.Length1, PlanThree())
  {
    ghost var plan := PlanThree();
    hide Feasible, Run, HeightAfter, WidthAfter;
    Start(im, energy, plan);
    r, re := im, energy;
    for i := 1 to 101
      invariant Reached(im, energy, plan, i - 1, r, re)
    {
      r, re := Flatten(im, energy, plan, i - 1, r, re);
    }
    assert plan[..100] == plan;
  }
}
