/** What compressing one node means, on values: children whose leaves fit are
    folded into the free slots, and the pass is repeated while children remain
    although fewer than 16 leaves are on the branch. */
module Compress {
  import opened AssocTree

  /** The lowest free slot. */
  function FirstEmpty(ts: seq<Tree>): (i: nat)
    requires Free(ts) > 0
    ensures i < |ts| && ts[i].Empty? && forall j :: 0 <= j < i ==> !ts[j].Empty?
    decreases |ts|
  {
    TallyPositive(ts, EmptyKind);
    FirstEmptyFrom(ts, 0)
  }

  function FirstEmptyFrom(ts: seq<Tree>, k: nat): (i: nat)
    requires exists j :: k <= j < |ts| && KindOf(ts[j]) == EmptyKind
    requires forall j :: 0 <= j < k ==> !ts[j].Empty?
    ensures i < |ts| && ts[i].Empty? && forall j :: 0 <= j < i ==> !ts[j].Empty?
    decreases |ts| - k
  {
    if ts[k].Empty? then k else FirstEmptyFrom(ts, k + 1)
  }

  /** Puts objects one after the other into the lowest free slot. */
  function Place(ts: seq<Tree>, objs: seq<Obj>): (r: seq<Tree>)
    requires |objs| <= Free(ts)
    decreases |objs|
  {
    if objs == [] then ts
    else
      var k := FirstEmpty(ts);
      TallyUpdate(ts, k, Leaf(objs[0]), EmptyKind);
      Place(ts[k := Leaf(objs[0])], objs[1..])
  }

  /** `r` is `ts` with some of its free slots turned into leaves. */
  ghost predicate Filled(ts: seq<Tree>, r: seq<Tree>) {
    && |r| == |ts|
    && forall i :: 0 <= i < |ts| ==> r[i] == ts[i] || (ts[i].Empty? && r[i].Leaf?)
  }

  lemma {:induction false} PlaceFacts(ts: seq<Tree>, objs: seq<Obj>)
    requires |objs| <= Free(ts)
    ensures var r := Place(ts, objs);
      && Filled(ts, r)
      && Free(r) == Free(ts) - |objs|
      && Kids(r) == Kids(ts)
      && multiset(LeavesOf(r)) == multiset(LeavesOf(ts)) + multiset(objs)
    decreases |objs|
  {
    hide LeavesOf;
    hide Tally;
    if objs != [] {
      var k := FirstEmpty(ts);
      var us := ts[k := Leaf(objs[0])];
      TallyUpdate(ts, k, Leaf(objs[0]), EmptyKind);
      TallyUpdate(ts, k, Leaf(objs[0]), MetaKind);
      LeavesUpdate(ts, k, Leaf(objs[0]));
      PlaceFacts(us, objs[1..]);
      calc {
        multiset(LeavesOf(Place(ts, objs)));
        multiset(LeavesOf(us)) + multiset(objs[1..]);
        { assert Leaves(ts[k]) == [] && Leaves(Leaf(objs[0])) == [objs[0]]; }
        multiset(LeavesOf(ts)) + multiset([objs[0]]) + multiset(objs[1..]);
        { assert objs == [objs[0]] + objs[1..]; }
        multiset(LeavesOf(ts)) + multiset(objs);
      }
    }
  }

  /** A child is folded when its leaves fit into the free slots and its own. */
  predicate Fits(ts: seq<Tree>, i: nat)
    requires i < |ts|
  {
    IsMeta(ts[i]) && Count(ts[i]) <= Free(ts) + 1
  }

  function FoldSlot(ts: seq<Tree>, i: nat): (r: seq<Tree>)
    requires i < |ts|
  {
    if Fits(ts, i) then
      TallyUpdate(ts, i, Empty, EmptyKind);
      Place(ts[i := Empty], Leaves(ts[i]))
    else ts
  }

  /** One pass over the slots from `i` on. */
  function Pass(ts: seq<Tree>, i: nat): (r: seq<Tree>)
    requires i <= |ts|
    ensures |r| == |ts|
    decreases |ts| - i
  {
    if i == |ts| then ts
    else
      FoldSlotFacts(ts, i);
      Pass(FoldSlot(ts, i), i + 1)
  }

  /** Passes until no child remains or the branch holds 16 leaves or more. */
  function Compress(ts: seq<Tree>): (r: seq<Tree>)
    requires |ts| == FAN_OUT
    ensures |r| == FAN_OUT
    decreases Kids(ts)
  {
    var us := Pass(ts, 0);
    if Kids(us) > 0 && |LeavesOf(us)| < FAN_OUT then
      PassFacts(ts, 0);
      PassProgress(ts);
      Compress(us)
    else us
  }

  /** `r` came from `ts` by folding: what sits in a slot of `ts` stays there,
      unless it is a child that was folded; every other new occupant is a leaf. */
  ghost predicate Folded(ts: seq<Tree>, r: seq<Tree>) {
    && |r| == |ts|
    && forall i :: 0 <= i < |ts| ==> r[i] == ts[i] || (!ts[i].Leaf? && !IsMeta(r[i]))
  }

  lemma FoldSlotFacts(ts: seq<Tree>, i: nat)
    requires i < |ts|
    ensures var r := FoldSlot(ts, i);
      && Folded(ts, r)
      && (forall j :: 0 <= j < |ts| && j != i && IsMeta(ts[j]) ==> r[j] == ts[j])
      && (!Fits(ts, i) ==> r == ts)
      && (Fits(ts, i) ==> Kids(r) == Kids(ts) - 1 && !IsMeta(r[i]) && Free(r) == Free(ts) + 1 - Count(ts[i]))
      && multiset(LeavesOf(r)) == multiset(LeavesOf(ts))
  {
    if Fits(ts, i) {
      FoldFits(ts, i);
    }
  }

  /** A child that fits gives its slot and its leaves to the node. */
  lemma FoldFits(ts: seq<Tree>, i: nat)
    requires i < |ts| && Fits(ts, i)
    ensures var r := FoldSlot(ts, i);
      && Folded(ts, r) && (forall j :: 0 <= j < |ts| && j != i && IsMeta(ts[j]) ==> r[j] == ts[j])
      && Kids(r) == Kids(ts) - 1 && !IsMeta(r[i]) && Free(r) == Free(ts) + 1 - Count(ts[i])
      && multiset(LeavesOf(r)) == multiset(LeavesOf(ts))
  {
    hide *;
    var us := ts[i := Empty];
    FitsMeans(ts, i);
    TallyUpdate(ts, i, Empty, EmptyKind);
    TallyUpdate(ts, i, Empty, MetaKind);
    LeavesUpdate(ts, i, Empty);
    NoLeaves();
    PlaceFacts(us, Leaves(ts[i]));
    FilledFolds(ts, i, FoldSlot(ts, i));
    MultisetZero(multiset(LeavesOf(us)), multiset(Leaves(ts[i])), multiset(LeavesOf(ts)));
  }

  lemma FitsMeans(ts: seq<Tree>, i: nat)
    requires i < |ts| && Fits(ts, i)
    ensures Count(ts[i]) == |Leaves(ts[i])| <= Free(ts) + 1 && KindOf(ts[i]) == MetaKind && KindOf(Empty) == EmptyKind
    ensures Free(ts) == Tally(ts, EmptyKind) && Kids(ts) == Tally(ts, MetaKind)
    ensures var us := ts[i := Empty]; Free(us) == Tally(us, EmptyKind) && Kids(us) == Tally(us, MetaKind)
    ensures |Leaves(ts[i])| <= Free(ts[i := Empty]) && FoldSlot(ts, i) == Place(ts[i := Empty], Leaves(ts[i]))
  {
    TallyUpdate(ts, i, Empty, EmptyKind);
    hide Tally;
    hide Place;
  }

  lemma NoLeaves()
    ensures Leaves(Empty) == []
  {
  }

  lemma FilledFolds(ts: seq<Tree>, i: nat, r: seq<Tree>)
    requires i < |ts| && IsMeta(ts[i]) && Filled(ts[i := Empty], r)
    ensures Folded(ts, r) && !IsMeta(r[i]) && forall j :: 0 <= j < |ts| && j != i && IsMeta(ts[j]) ==> r[j] == ts[j]
  {
  }

  lemma MultisetZero(a: multiset<Obj>, b: multiset<Obj>, c: multiset<Obj>)
    requires a + b == c + multiset{}
    ensures a + b == c
  {
  }

  lemma {:induction false} PassFacts(ts: seq<Tree>, i: nat)
    requires i <= |ts|
    ensures var r := Pass(ts, i);
      && Folded(ts, r)
      && (forall j :: 0 <= j < i && IsMeta(ts[j]) ==> r[j] == ts[j])
      && Kids(r) <= Kids(ts)
      && multiset(LeavesOf(r)) == multiset(LeavesOf(ts))
      && |LeavesOf(r)| == |LeavesOf(ts)|
    decreases |ts| - i
  {
    hide LeavesOf;
    hide Tally;
    hide FoldSlot;
    if i < |ts| {
      FoldSlotFacts(ts, i);
      PassFacts(FoldSlot(ts, i), i + 1);
    }
    assert |multiset(LeavesOf(Pass(ts, i)))| == |multiset(LeavesOf(ts))|;
  }

  lemma {:induction false} PassFolds(ts: seq<Tree>, i: nat, j: nat)
    requires i <= j < |ts| && Fits(ts, j)
    ensures Kids(Pass(ts, i)) < Kids(ts)
    decreases j - i
  {
    hide LeavesOf;
    hide Tally;
    hide FoldSlot;
    FoldSlotFacts(ts, i);
    PassFacts(FoldSlot(ts, i), i + 1);
    if !Fits(ts, i) {
      PassFolds(ts, i + 1, j);
    }
  }

  /** The pigeonhole: if no child fits, the branch holds more than 16 leaves. */
  lemma NoFitMeansMany(ts: seq<Tree>)
    requires |ts| == FAN_OUT && Kids(ts) > 0
    requires forall j :: 0 <= j < |ts| ==> !Fits(ts, j)
    ensures |LeavesOf(ts)| > FAN_OUT
  {
    var f, m := Free(ts), Kids(ts);
    forall j | 0 <= j < |ts| && IsMeta(ts[j])
      ensures Count(ts[j]) >= f + 2
    {
      assert !Fits(ts, j);
    }
    LeavesAtLeast(ts, f + 2);
    TallyTotal(ts);
    hide *;
    AtLeastTwice(f, m);
  }

  lemma AtLeastTwice(f: nat, m: nat)
    requires m > 0
    ensures (f + 2) * m >= f + 2 * m
  {
    assert f * m >= f;
  }

  lemma SomeChildFits(ts: seq<Tree>)
    requires |ts| == FAN_OUT && |LeavesOf(ts)| <= FAN_OUT && Kids(ts) > 0
    ensures exists j :: 0 <= j < |ts| && Fits(ts, j)
  {
    if forall j :: 0 <= j < |ts| ==> !Fits(ts, j) {
      NoFitMeansMany(ts);
    }
  }

  /** Every pass over a branch of at most 16 leaves folds a child. */
  lemma PassProgress(ts: seq<Tree>)
    requires |ts| == FAN_OUT
    requires Kids(Pass(ts, 0)) > 0 && |LeavesOf(Pass(ts, 0))| <= FAN_OUT
    ensures Kids(Pass(ts, 0)) < Kids(ts)
  {
    PassFacts(ts, 0);
    SomeChildFits(ts);
    var j :| 0 <= j < |ts| && Fits(ts, j);
    PassFolds(ts, 0, j);
  }

  /** Compressing keeps direct leaves and retained children in their slots, adds
      leaves only, and keeps the leaves of the branch; with fewer than 16 of them
      no child remains. */
  lemma {:induction false} CompressFacts(ts: seq<Tree>)
    requires |ts| == FAN_OUT
    ensures var r := Compress(ts);
      && Folded(ts, r)
      && multiset(LeavesOf(r)) == multiset(LeavesOf(ts))
      && |LeavesOf(r)| == |LeavesOf(ts)|
      && (|LeavesOf(ts)| < FAN_OUT ==> Kids(r) == 0)
    decreases Kids(ts)
  {
    var us := Pass(ts, 0);
    PassFacts(ts, 0);
    if Kids(us) > 0 && |LeavesOf(us)| < FAN_OUT {
      PassProgress(ts);
      CompressFacts(us);
    }
  }
}
