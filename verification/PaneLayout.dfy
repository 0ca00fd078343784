/** The pane list validator, and the replay it is there to protect: every accepted list builds a binary
    split tree with one leaf per pane. */
module PaneLayout {
  import opened Common
  import opened Text

  datatype Direction = Horizontal | Vertical | Stacked

  datatype Pane = Pane(name: Option<string>, split: Option<Direction>, size: Option<nat>,
                       percentage: Option<nat>, target: Option<nat>, zoom: bool)

  datatype Problem =
    | EmptyName(index: nat)
    | FirstHasSplit
    | FirstHasSize
    | MissingSplit(index: nat)
    | SizeAndPercentage(index: nat)
    | BadPercentage(index: nat)
    | StackedWithSize(index: nat)
    | BadTarget(index: nat)
    | ManyZoomed(count: nat)

  /** The checks that are made of pane `i`: which problem it has. */
  ghost predicate Has(pane: Pane, i: nat, problem: Problem) {
    match problem
    case EmptyName(k) => k == i && pane.name.Some? && AllSpaces(pane.name.value)
    case FirstHasSplit => i == 0 && pane.split != None
    case FirstHasSize => i == 0 && (pane.size != None || pane.percentage != None)
    case MissingSplit(k) => k == i && i > 0 && pane.split == None
    case SizeAndPercentage(k) => k == i && pane.size != None && pane.percentage != None
    case BadPercentage(k) => k == i && pane.percentage.Some? && !(1 <= pane.percentage.value <= 100)
    case StackedWithSize(k) => k == i && pane.split == Some(Stacked) && (pane.size != None || pane.percentage != None)
    case BadTarget(k) => k == i && pane.target.Some? && pane.target.value >= i
    case ManyZoomed(_) => false
  }

  /** The order in which one pane's checks are made. */
  function Rank(problem: Problem): nat {
    match problem
    case EmptyName(_) => 0
    case FirstHasSplit => 1
    case FirstHasSize => 2
    case MissingSplit(_) => 3
    case SizeAndPercentage(_) => 4
    case BadPercentage(_) => 5
    case StackedWithSize(_) => 6
    case BadTarget(_) => 7
    case ManyZoomed(_) => 8
  }

  ghost predicate Sound(pane: Pane, i: nat) {
    forall problem :: !Has(pane, i, problem)
  }

  /** The first problem of the first pane that has one. */
  ghost predicate IsFirstProblem(panes: seq<Pane>, i: nat, problem: Problem)
    requires i < |panes|
  {
    && Has(panes[i], i, problem)
    && (forall other :: Has(panes[i], i, other) ==> Rank(problem) <= Rank(other))
    && (forall j :: 0 <= j < i ==> Sound(panes[j], j))
  }

  ghost function Zoomed(panes: seq<Pane>): set<nat> {
    set i | 0 <= i < |panes| && panes[i].zoom
  }

  ghost predicate Valid(panes: seq<Pane>) {
    (forall i :: 0 <= i < |panes| ==> Sound(panes[i], i)) && |Zoomed(panes)| <= 1
  }

  /** Reports the first pane's first problem; zoom is counted only when no pane has one. */
  method ValidatePanesConfig(panes: seq<Pane>) returns (problem: Option<Problem>)
    ensures problem.None? <==> Valid(panes)
    ensures problem.Some? && !problem.value.ManyZoomed? ==>
      exists i :: 0 <= i < |panes| && IsFirstProblem(panes, i, problem.value)
    ensures problem.Some? && problem.value.ManyZoomed? ==>
      && problem.value.count == |Zoomed(panes)| > 1
      && forall i :: 0 <= i < |panes| ==> Sound(panes[i], i)
  {
    hide Trim, AllSpaces;
    for i := 0 to |panes|
      invariant forall j :: 0 <= j < i ==> Sound(panes[j], j)
    {
      problem := CheckPane(panes[i], i);
      if problem.Some? {
        assert IsFirstProblem(panes, i, problem.value);
        return;
      }
    }
    var zoomCount := 0;
    assert Zoomed(panes[..0]) == {};
    for i := 0 to |panes|
      invariant zoomCount == |Zoomed(panes[..i])|
    {
      assert Zoomed(panes[..i + 1]) == Zoomed(panes[..i]) + (if panes[i].zoom then {i} else {});
      if panes[i].zoom {
        zoomCount := zoomCount + 1;
      }
    }
    assert panes[..|panes|] == panes;
    if zoomCount > 1 {
      return Some(ManyZoomed(zoomCount));
    }
    return None;
  }

  /** One turn of the loop: the checks of one pane. */
  method CheckPane(pane: Pane, i: nat) returns (problem: Option<Problem>)
    ensures problem.None? ==> Sound(pane, i)
    ensures problem.Some? ==>
      && Has(pane, i, problem.value)
      && forall other :: Has(pane, i, other) ==> Rank(problem.value) <= Rank(other)
  {
    hide Trim, AllSpaces;
    if pane.name.Some? {
      BlankIff(pane.name.value);
      if Trim(pane.name.value) == "" {
        return Some(EmptyName(i));
      }
    }
    if i == 0 {
      if pane.split.Some? {
        return Some(FirstHasSplit);
      }
      if pane.size.Some? || pane.percentage.Some? {
        return Some(FirstHasSize);
      }
    } else if pane.split.None? {
      return Some(MissingSplit(i));
    }
    if pane.size.Some? && pane.percentage.Some? {
      return Some(SizeAndPercentage(i));
    }
    if pane.percentage.Some? && !(1 <= pane.percentage.value <= 100) {
      return Some(BadPercentage(i));
    }
    if pane.split == Some(Stacked) && (pane.size.Some? || pane.percentage.Some?) {
      return Some(StackedWithSize(i));
    }
    if pane.target.Some? && pane.target.value >= i {
      return Some(BadTarget(i));
    }
    return None;
  }

  // ----- Replaying a pane list -----

  datatype Tree = Leaf(pane: nat) | Node(direction: Direction, first: Tree, second: Tree)

  function Leaves(t: Tree): seq<nat> {
    match t
    case Leaf(p) => [p]
    case Node(_, a, b) => Leaves(a) + Leaves(b)
  }

  /** Splits every leaf labelled `target`, putting the new pane after it. */
  function SplitLeaf(t: Tree, target: nat, direction: Direction, pane: nat): Tree {
    match t
    case Leaf(p) => if p == target then Node(direction, Leaf(p), Leaf(pane)) else t
    case Node(d, a, b) => Node(d, SplitLeaf(a, target, direction, pane), SplitLeaf(b, target, direction, pane))
  }

  /** The panes made so far, labelled in the order they were made. */
  datatype Layout = Layout(tree: Tree, made: nat)

  /** The pane that a new one splits: its target, or the one made last. */
  function SplitFrom(pane: Pane, made: nat): int {
    if pane.target.Some? then pane.target.value else made - 1
  }

  /** One turn for a later pane: without a direction it is skipped, with an unknown target it fails. */
  function AddPane(layout: Layout, pane: Pane): Option<Layout> {
    if pane.split.None? then Some(layout)
    else
      var target := SplitFrom(pane, layout.made);
      if !(0 <= target < layout.made) then None
      else Some(Layout(SplitLeaf(layout.tree, target, pane.split.value, layout.made), layout.made + 1))
  }

  /** The initial pane is there from the start. */
  function Replay(panes: seq<Pane>): Option<Layout> {
    if |panes| <= 1 then Some(Layout(Leaf(0), 1))
    else
      var before := Replay(panes[..|panes| - 1]);
      if before.None? then None else AddPane(before.value, panes[|panes| - 1])
  }

  /** The builder's loop. */
  method SetupPanes(panes: seq<Pane>) returns (layout: Option<Layout>)
    ensures layout == Replay(panes)
  {
    var built := Layout(Leaf(0), 1);
    for i := 0 to |panes|
      invariant Replay(panes[..i]) == Some(built)
    {
      assert panes[..i + 1][..i] == panes[..i];
      if i > 0 {
        if panes[i].split.None? {
          continue;
        }
        var target := SplitFrom(panes[i], built.made);
        if !(0 <= target < built.made) {
          FailureStays(panes, i + 1);
          return None;
        }
        built := Layout(SplitLeaf(built.tree, target, panes[i].split.value, built.made), built.made + 1);
      }
    }
    assert panes[..|panes|] == panes;
    return Some(built);
  }

  lemma {:induction false} FailureStays(panes: seq<Pane>, n: nat)
    requires n <= |panes| && Replay(panes[..n]).None?
    ensures Replay(panes).None?
    decreases |panes|
  {
    if n == |panes| {
      assert panes[..n] == panes;
    } else {
      assert panes[..|panes| - 1][..n] == panes[..n];
      FailureStays(panes[..|panes| - 1], n);
    }
  }

  /** Each of `0..n` labels exactly one leaf, and nothing else labels any. */
  ghost predicate OneLeafEach(t: Tree, n: nat) {
    forall k: nat :: multiset(Leaves(t))[k] == if k < n then 1 else 0
  }

  lemma {:induction false} SplitAddsLeaf(t: Tree, target: nat, direction: Direction, pane: nat)
    ensures forall k: nat :: (multiset(Leaves(SplitLeaf(t, target, direction, pane)))[k]
                              == multiset(Leaves(t))[k] + (if k == pane then multiset(Leaves(t))[target] else 0))
  {
    match t {
      case Leaf(p) =>
      case Node(d, a, b) =>
        SplitAddsLeaf(a, target, direction, pane);
        SplitAddsLeaf(b, target, direction, pane);
    }
  }

  /** However a list builds, its panes are the leaves, each exactly once: a target that was made is there
      to be split. */
  lemma {:induction false} ReplayHasOneLeafEach(panes: seq<Pane>)
    requires Replay(panes).Some?
    ensures OneLeafEach(Replay(panes).value.tree, Replay(panes).value.made)
    ensures Replay(panes).value.made == Made(panes)
  {
    if |panes| <= 1 {
    } else {
      var init, last := panes[..|panes| - 1], panes[|panes| - 1];
      ReplayHasOneLeafEach(init);
      if last.split.Some? {
        var before := Replay(init).value;
        SplitAddsLeaf(before.tree, SplitFrom(last, before.made), last.split.value, before.made);
      }
    }
  }

  /** How many panes a list makes: the first, and each later one with a direction. */
  function Made(panes: seq<Pane>): (n: nat)
    ensures n >= 1
  {
    if |panes| <= 1 then 1 else Made(panes[..|panes| - 1]) + (if panes[|panes| - 1].split.Some? then 1 else 0)
  }

  predicate TargetIsMade(panes: seq<Pane>, i: nat)
    requires i < |panes|
  {
    panes[i].split.Some? && panes[i].target.Some? ==> panes[i].target.value < Made(panes[..i])
  }

  predicate Buildable(panes: seq<Pane>) {
    forall i :: 0 < i < |panes| ==> TargetIsMade(panes, i)
  }

  /** A list builds exactly when no pane with a direction targets one that is not made before it. */
  lemma {:induction false} ReplaysIffBuildable(panes: seq<Pane>)
    ensures Replay(panes).Some? <==> Buildable(panes)
  {
    if |panes| <= 1 {
    } else {
      var n := |panes| - 1;
      var init := panes[..n];
      ReplaysIffBuildable(init);
      forall i | 0 < i < n ensures TargetIsMade(init, i) == TargetIsMade(panes, i) {
        assert init[..i] == panes[..i];
      }
      assert Buildable(panes) <==> Buildable(init) && TargetIsMade(panes, n);
      if Replay(init).Some? {
        ReplayHasOneLeafEach(init);
      }
    }
  }

  lemma {:induction false} EveryPaneMade(panes: seq<Pane>)
    requires panes != [] && forall i :: 0 < i < |panes| ==> panes[i].split.Some?
    ensures Made(panes) == |panes|
  {
    if |panes| <= 1 {
    } else {
      EveryPaneMade(panes[..|panes| - 1]);
    }
  }

  /** With a direction on every later pane, a list builds exactly when each targets an earlier pane. */
  lemma DirectedListsBuildIff(panes: seq<Pane>)
    requires forall i :: 0 < i < |panes| ==> panes[i].split.Some?
    ensures Replay(panes).Some?
      <==> forall i :: 0 < i < |panes| && panes[i].target.Some? ==> panes[i].target.value < i
  {
    ReplaysIffBuildable(panes);
    forall i | 0 < i < |panes|
      ensures TargetIsMade(panes, i) <==> (panes[i].target.Some? ==> panes[i].target.value < i)
    {
      EveryPaneMade(panes[..i]);
    }
  }

  /** An accepted list always builds, into a tree with leaves 0 to n-1 each exactly once, of which at
      most one is zoomed. */
  lemma AcceptedListsReplay(panes: seq<Pane>)
    requires panes != [] && Valid(panes)
    ensures Replay(panes).Some? && Replay(panes).value.made == |panes|
    ensures OneLeafEach(Replay(panes).value.tree, |panes|)
    ensures forall i, j :: 0 <= i < j < |panes| ==> !(panes[i].zoom && panes[j].zoom)
  {
    hide AllSpaces;
    forall i | 0 < i < |panes|
      ensures panes[i].split.Some? && (panes[i].target.Some? ==> panes[i].target.value < i)
    {
      assert Sound(panes[i], i);
      assert !Has(panes[i], i, MissingSplit(i)) && !Has(panes[i], i, BadTarget(i));
    }
    DirectedListsBuildIff(panes);
    EveryPaneMade(panes);
    ReplayHasOneLeafEach(panes);
    forall i, j | 0 <= i < |panes| && 0 <= j < |panes| && panes[i].zoom && panes[j].zoom ensures i == j {
      OneZoomed(panes, i, j);
    }
  }

  lemma OneZoomed(panes: seq<Pane>, i: nat, j: nat)
    requires i in Zoomed(panes) && j in Zoomed(panes) && |Zoomed(panes)| <= 1
    ensures i == j
  {
    var rest := Zoomed(panes) - {i};
    assert |rest| == |Zoomed(panes)| - 1;
    assert j in rest <==> j != i;
  }

  /** Of the lists whose other checks pass, the target check rejects exactly those that cannot be
      built, and those giving a target to the first pane, which splits nothing. */
  lemma TargetCheckIsExact(panes: seq<Pane>)
    requires forall i, problem :: 0 <= i < |panes| && Has(panes[i], i, problem) ==> problem == BadTarget(i)
    ensures (exists i :: 0 <= i < |panes| && Has(panes[i], i, BadTarget(i)))
      <==> Replay(panes).None? || (panes != [] && panes[0].target.Some?)
  {
    hide AllSpaces;
    forall i | 0 < i < |panes| ensures panes[i].split.Some? {
      assert Has(panes[i], i, MissingSplit(i)) <==> panes[i].split.None?;
    }
    DirectedListsBuildIff(panes);
    if Replay(panes).None? {
      var i :| 0 < i < |panes| && panes[i].target.Some? && panes[i].target.value >= i;
      assert Has(panes[i], i, BadTarget(i));
    }
    if panes != [] && panes[0].target.Some? {
      assert Has(panes[0], 0, BadTarget(0));
    }
  }

  // ----- The shape of the tree -----

  /** `part` is `t` or stands somewhere in it. */
  predicate Contains(t: Tree, part: Tree) {
    t == part || (t.Node? && (Contains(t.first, part) || Contains(t.second, part)))
  }

  /** The tree without a pane's leaf; the other half of its split takes the place of both. */
  function Without(t: Tree, pane: nat): Tree {
    match t
    case Leaf(_) => t
    case Node(d, a, b) =>
      if a == Leaf(pane) then Without(b, pane)
      else if b == Leaf(pane) then Without(a, pane)
      else Node(d, Without(a, pane), Without(b, pane))
  }

  lemma {:induction false} SplitUndone(t: Tree, target: nat, direction: Direction, pane: nat)
    requires pane !in Leaves(t)
    ensures Without(SplitLeaf(t, target, direction, pane), pane) == t
    ensures target in Leaves(t) ==>
      Contains(SplitLeaf(t, target, direction, pane), Node(direction, Leaf(target), Leaf(pane)))
    ensures SplitLeaf(t, target, direction, pane) != Leaf(pane)
  {
    match t {
      case Leaf(p) =>
      case Node(d, a, b) =>
        SplitUndone(a, target, direction, pane);
        SplitUndone(b, target, direction, pane);
    }
  }

  lemma LabelledIff(t: Tree, n: nat, k: nat)
    requires OneLeafEach(t, n)
    ensures k in Leaves(t) <==> k < n
  {
    assert k in Leaves(t) <==> multiset(Leaves(t))[k] > 0;
  }

  /** A later pane with a direction is split off the pane it targets, or else the one made last: it stands
      beside it, second, and nothing else of the tree changes. */
  lemma PaneIsSplitOff(panes: seq<Pane>, last: Pane)
    requires panes != [] && Replay(panes + [last]).Some? && last.split.Some?
    ensures Replay(panes).Some?
    ensures var before, after := Replay(panes).value, Replay(panes + [last]).value;
      var from := if last.target.Some? then last.target.value else before.made - 1;
      && Without(after.tree, before.made) == before.tree
      && Contains(after.tree, Node(last.split.value, Leaf(from), Leaf(before.made)))
  {
    var all := panes + [last];
    assert all[..|all| - 1] == panes && all[|all| - 1] == last;
    var before := Replay(panes).value;
    ReplayHasOneLeafEach(panes);
    var from := SplitFrom(last, before.made);
    LabelledIff(before.tree, before.made, before.made);
    LabelledIff(before.tree, before.made, from);
    SplitUndone(before.tree, from, last.split.value, before.made);
  }

  /** A list with `pane` after each `target` in it. */
  function InsertAfter(xs: seq<nat>, target: nat, pane: nat): seq<nat> {
    if xs == [] then []
    else [xs[0]] + (if xs[0] == target then [pane] else []) + InsertAfter(xs[1..], target, pane)
  }

  lemma {:induction false} InsertAfterConcat(a: seq<nat>, b: seq<nat>, target: nat, pane: nat)
    ensures InsertAfter(a + b, target, pane) == InsertAfter(a, target, pane) + InsertAfter(b, target, pane)
  {
    if a == [] {
      assert a + b == b;
    } else {
      assert (a + b)[1..] == a[1..] + b;
      InsertAfterConcat(a[1..], b, target, pane);
    }
  }

  lemma {:induction false} LeavesOfSplit(t: Tree, target: nat, direction: Direction, pane: nat)
    ensures Leaves(SplitLeaf(t, target, direction, pane)) == InsertAfter(Leaves(t), target, pane)
  {
    match t {
      case Leaf(p) =>
        assert [p][1..] == [];
      case Node(d, a, b) =>
        LeavesOfSplit(a, target, direction, pane);
        LeavesOfSplit(b, target, direction, pane);
        InsertAfterConcat(Leaves(a), Leaves(b), target, pane);
    }
  }

  lemma {:induction false} InsertElsewhere(xs: seq<nat>, target: nat, pane: nat)
    requires target !in xs
    ensures InsertAfter(xs, target, pane) == xs
  {
    if xs == [] {
    } else {
      InsertElsewhere(xs[1..], target, pane);
    }
  }

  function Upto(n: nat): seq<nat> {
    seq(n, k => k)
  }

  lemma SplitLast(t: Tree, n: nat, direction: Direction)
    requires Leaves(t) == Upto(n + 1)
    ensures Leaves(SplitLeaf(t, n, direction, n + 1)) == Upto(n + 2)
  {
    hide Leaves, SplitLeaf;
    LeavesOfSplit(t, n, direction, n + 1);
    assert Upto(n + 1) == Upto(n) + [n];
    InsertAfterConcat(Upto(n), [n], n, n + 1);
    InsertElsewhere(Upto(n), n, n + 1);
    assert [n][1..] == [];
    assert InsertAfter([n], n, n + 1) == [n, n + 1];
    assert Upto(n) + [n, n + 1] == Upto(n + 2);
  }

  /** Without targets the panes stand in the order they are listed. */
  lemma {:induction false} UntargetedInOrder(panes: seq<Pane>)
    requires forall i :: 0 < i < |panes| ==> panes[i].target.None?
    ensures Replay(panes).Some?
    ensures Leaves(Replay(panes).value.tree) == Upto(Replay(panes).value.made)
  {
    if |panes| <= 1 {
    } else {
      var init, last := panes[..|panes| - 1], panes[|panes| - 1];
      UntargetedInOrder(init);
      ReplayHasOneLeafEach(init);
      if last.split.Some? {
        var before := Replay(init).value;
        SplitLast(before.tree, before.made - 1, last.split.value);
      }
    }
  }
}
