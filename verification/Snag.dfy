/** When a collection stops at an assertion. Compressing a node asserts that a
    child it folds is not behind a shortcut and holds leaves only. This module
    says exactly on which trees that assertion fails, in terms of nothing but
    leaf counts of the filtered tree. */
module Snag {
  import opened AssocTree
  import opened Compress
  import opened Collect
  import opened NormalForm

  // ----- what the code asserts

  /** Folding slot `i` fails an assertion: its occupant is a shortcut, or the
      child node still holds a node or a shortcut. */
  predicate FoldTraps(ts: seq<Tree>, i: nat)
    requires i < |ts|
  {
    Fits(ts, i) && (ts[i].Shortcut? || Kids(ts[i].slots) > 0)
  }

  predicate PassTraps(ts: seq<Tree>, i: nat)
    requires i <= |ts|
    decreases |ts| - i
  {
    i < |ts| && (FoldTraps(ts, i) || (FoldSlotFacts(ts, i); PassTraps(FoldSlot(ts, i), i + 1)))
  }

  predicate CompressTraps(ts: seq<Tree>)
    requires |ts| == FAN_OUT
    decreases Kids(ts)
  {
    var us := Pass(ts, 0);
    || PassTraps(ts, 0)
    || (Kids(us) > 0 && |LeavesOf(us)| < FAN_OUT &&
        (PassFacts(ts, 0); PassProgress(ts); CompressTraps(us)))
  }

  /** Some node of the tree fails an assertion when it is compressed. */
  predicate Trapped(t: Tree)
    requires WellFormed(t)
  {
    match t
    case Empty => false
    case Leaf(_) => false
    case Node(ss) =>
      || CompressTraps(CompactAll(ss))
      || exists i :: 0 <= i < |ss| && Trapped(ss[i])
    case Shortcut(_, c) => Trapped(c)
  }

  // ----- the condition on leaf counts

  /** Some child from slot `i` on does not fit when its turn comes, `free` being the
      number of free slots by then. */
  predicate Retains(ts: seq<Tree>, i: nat, free: int)
    requires i <= |ts|
    decreases |ts| - i
  {
    i < |ts| &&
    if IsMeta(ts[i]) then Count(ts[i]) > free + 1 || Retains(ts, i + 1, free + 1 - Count(ts[i]))
    else Retains(ts, i + 1, free)
  }

  /** The node, or the node the shortcut leads to, keeps a child after one pass. */
  predicate Keeps(t: Tree) {
    match t
    case Node(ss) => Retains(ss, 0, Free(ss))
    case Shortcut(_, c) => c.Node? && Retains(c.slots, 0, Free(c.slots))
    case _ => false
  }

  /** A branch of exactly 16 leaves that one pass does not flatten. */
  predicate Stuck(t: Tree) {
    IsMeta(t) && Count(t) == FAN_OUT && Keeps(t)
  }

  /** Slot `j` holds a stuck branch; no slot before it holds a leaf anywhere below,
      and every slot after it is free. */
  predicate SnagAt(ss: seq<Tree>, j: nat)
    requires j < |ss|
  {
    && Stuck(ss[j])
    && (forall i :: 0 <= i < j ==> Count(ss[i]) == 0)
    && (forall i :: j < i < |ss| ==> ss[i].Empty?)
  }

  predicate HasSnag(t: Tree) {
    match t
    case Empty => false
    case Leaf(_) => false
    case Node(ss) =>
      || (exists j :: 0 <= j < |ss| && SnagAt(ss, j))
      || (exists i :: 0 <= i < |ss| && HasSnag(ss[i]))
    case Shortcut(_, c) => HasSnag(c)
  }

  // ----- one pass, by counts

  lemma {:induction false} RetainsSame(a: seq<Tree>, b: seq<Tree>, i: nat, free: int)
    requires |a| == |b| && i <= |a|
    requires forall j :: i <= j < |a| ==> IsMeta(a[j]) == IsMeta(b[j]) && (IsMeta(a[j]) ==> Count(a[j]) == Count(b[j]))
    ensures Retains(a, i, free) == Retains(b, i, free)
    decreases |a| - i
  {
    if i < |a| {
      RetainsSame(a, b, i + 1, if IsMeta(a[i]) then free + 1 - Count(a[i]) else free);
    }
  }

  /** A pass leaves a child behind just when the count of some child exceeds the
      slots free by then. */
  lemma {:induction false} PassKeeps(ts: seq<Tree>, i: nat)
    requires i <= |ts|
    ensures Kids(Pass(ts, i)) > 0 <==>
      (exists j :: 0 <= j < i && IsMeta(ts[j])) || Retains(ts, i, Free(ts))
    decreases |ts| - i
  {
    hide LeavesOf;
    hide Tally;
    hide Leaves;
    hide FoldSlot;
    if i == |ts| {
      TallyPositive(ts, MetaKind);
    } else {
      FoldSlotFacts(ts, i);
      var us := FoldSlot(ts, i);
      PassKeeps(us, i + 1);
      RetainsSame(ts, us, i + 1, Free(us));
      forall j | 0 <= j < |ts| && j != i
        ensures IsMeta(us[j]) == IsMeta(ts[j]) && (IsMeta(ts[j]) ==> us[j] == ts[j])
      {
        assert us[j] == ts[j] || (!ts[j].Leaf? && !IsMeta(us[j]));
      }
      if Fits(ts, i) {
        assert !IsMeta(us[i]);
        if j :| 0 <= j < i && IsMeta(ts[j]) {
          assert IsMeta(us[j]);
        }
        if j :| 0 <= j < i + 1 && IsMeta(us[j]) {
          assert IsMeta(ts[j]);
        }
      } else {
        assert us == ts;
      }
    }
  }

  // ----- one pass, by what it meets

  /** A child node of exactly 16 leaves that still holds a child. */
  predicate Full(t: Tree) {
    t.Node? && Count(t) == FAN_OUT && Kids(t.slots) > 0
  }

  /** From slot `i` on the pass will fold the full child in slot `j`. */
  predicate Doomed(ts: seq<Tree>, i: nat, j: nat) {
    && i <= j < |ts| && Full(ts[j])
    && (forall k :: 0 <= k < i ==> ts[k].Empty?)
    && (forall k :: i <= k < j ==> Count(ts[k]) == 0)
    && (forall k :: j < k < |ts| ==> ts[k].Empty?)
  }

  lemma AloneIsFree(ts: seq<Tree>, i: nat)
    requires i < |ts| && !ts[i].Empty?
    ensures Free(ts) + 1 == |ts| <==> forall k :: 0 <= k < |ts| && k != i ==> ts[k].Empty?
    ensures Free(ts) + 1 <= |ts|
  {
    hide Tally;
    var us := ts[i := Empty];
    TallyUpdate(ts, i, Empty, EmptyKind);
    AllFree(us);
    if forall k :: 0 <= k < |ts| && k != i ==> ts[k].Empty? {
      assert forall k :: 0 <= k < |us| ==> us[k].Empty?;
    }
    if forall k :: 0 <= k < |us| ==> us[k].Empty? {
      forall k | 0 <= k < |ts| && k != i ensures ts[k].Empty? {
        assert us[k].Empty?;
      }
    }
  }

  /** With children in normal form, folding a slot fails an assertion just when the
      slot holds a full child and every other slot is free. */
  lemma FoldTrapsWhen(ts: seq<Tree>, i: nat)
    requires AllNormal(ts) && i < |ts|
    ensures FoldTraps(ts, i) <==>
      Full(ts[i]) && forall k :: 0 <= k < |ts| && k != i ==> ts[k].Empty?
  {
    hide LeavesOf;
    hide Tally;
    assert Normal(ts[i]);
    if IsMeta(ts[i]) {
      AloneIsFree(ts, i);
    }
  }

  lemma TwoSlots(ts: seq<Tree>, i: nat, j: nat)
    requires i < |ts| && j < |ts| && i != j
    ensures Count(ts[i]) + Count(ts[j]) <= |LeavesOf(ts)|
  {
    hide LeavesOf;
    var us := ts[i := Empty];
    LeavesUpdate(ts, i, Empty);
    SlotCount(us, j);
    assert |multiset(LeavesOf(us)) + multiset(Leaves(ts[i]))| == |LeavesOf(us)| + |Leaves(ts[i])|;
    assert multiset(Leaves(Empty)) == multiset{};
    assert multiset(LeavesOf(ts)) + multiset{} == multiset(LeavesOf(ts));
    assert |multiset(LeavesOf(ts))| == |LeavesOf(ts)|;
  }

  /** A slot a pass has gone by is not doomed to anything it was not before. */
  lemma DoomedBefore(ts: seq<Tree>, i: nat, j: nat)
    requires i < |ts| && Doomed(FoldSlot(ts, i), i + 1, j)
    ensures Doomed(ts, i, j)
  {
    hide LeavesOf;
    hide Tally;
    hide Leaves;
    hide FoldSlot;
    FoldSlotFacts(ts, i);
    var us := FoldSlot(ts, i);
    assert us[j] == ts[j];
    forall k | 0 <= k < |us| && k != j
      ensures Count(us[k]) == 0
    {
      CountEmpty(us[k]);
    }
    OnlyOne(us, j);
    assert |multiset(LeavesOf(us))| == |multiset(LeavesOf(ts))|;
    forall k | 0 <= k < |ts| && k != j
      ensures Count(ts[k]) == 0
    {
      TwoSlots(ts, k, j);
    }
    forall k | 0 <= k < |ts| && k != j && k != i && us[k].Empty?
      ensures ts[k].Empty?
    {
      assert us[k] == ts[k] || (!ts[k].Leaf? && !IsMeta(us[k]));
    }
  }

  lemma CountEmpty(t: Tree)
    ensures t.Empty? ==> Count(t) == 0
    ensures t.Leaf? ==> Count(t) == 1
  {
  }

  lemma DoomedAfter(ts: seq<Tree>, i: nat, j: nat)
    requires i < j && Doomed(ts, i, j)
    ensures Doomed(FoldSlot(ts, i), i + 1, j)
  {
    hide LeavesOf;
    hide Tally;
    CountEmpty(ts[i]);
    if Fits(ts, i) {
      assert FoldSlot(ts, i) == ts[i := Empty];
    }
  }

  lemma {:induction false} FoldNormal(ts: seq<Tree>, i: nat)
    requires AllNormal(ts) && i < |ts|
    ensures AllNormal(FoldSlot(ts, i))
  {
    hide LeavesOf;
    hide Tally;
    hide FoldSlot;
    FoldSlotFacts(ts, i);
    var us := FoldSlot(ts, i);
    forall k | 0 <= k < |us| ensures Normal(us[k]) {
      assert us[k] == ts[k] || (!ts[k].Leaf? && !IsMeta(us[k]));
    }
  }

  lemma {:induction false} PassTrapsWhen(ts: seq<Tree>, i: nat)
    requires AllNormal(ts) && i <= |ts|
    ensures PassTraps(ts, i) <==> exists j :: Doomed(ts, i, j)
    decreases |ts| - i
  {
    hide LeavesOf;
    hide Tally;
    hide Leaves;
    hide FoldSlot;
    hide FoldTraps;
    if i < |ts| {
      FoldTrapsWhen(ts, i);
      FoldNormal(ts, i);
      FoldSlotFacts(ts, i);
      var us, next := FoldSlot(ts, i), i + 1;
      PassTrapsWhen(us, next);
      if j :| Doomed(us, next, j) {
        DoomedBefore(ts, i, j);
      }
      if j :| Doomed(ts, i, j) {
        if i < j {
          DoomedAfter(ts, i, j);
        } else {
          assert FoldTraps(ts, i);
        }
      }
      if FoldTraps(ts, i) {
        assert Doomed(ts, i, i);
      }
    }
  }

  // ----- whole trees

  /** Only the first pass can fail: a later one handles fewer than 16 leaves. */
  lemma CompressTrapsWhen(ts: seq<Tree>)
    requires AllNormal(ts)
    ensures CompressTraps(ts) <==> exists j :: Doomed(ts, 0, j)
  {
    hide LeavesOf;
    hide Tally;
    hide Leaves;
    hide Pass;
    hide PassTraps;
    PassTrapsWhen(ts, 0);
    var us := Pass(ts, 0);
    PassFacts(ts, 0);
    PassNormal(ts, 0);
    if Kids(us) > 0 && |LeavesOf(us)| < FAN_OUT {
      PassProgress(ts);
      SmallNeverTraps(us);
    }
  }

  lemma {:induction false} PassNormal(ts: seq<Tree>, i: nat)
    requires AllNormal(ts) && i <= |ts|
    ensures AllNormal(Pass(ts, i))
    decreases |ts| - i
  {
    hide LeavesOf;
    hide Tally;
    hide FoldSlot;
    if i < |ts| {
      FoldNormal(ts, i);
      FoldSlotFacts(ts, i);
      PassNormal(FoldSlot(ts, i), i + 1);
    }
  }

  lemma {:induction false} SmallNeverTraps(ts: seq<Tree>)
    requires AllNormal(ts) && |LeavesOf(ts)| < FAN_OUT
    ensures !CompressTraps(ts)
    decreases Kids(ts)
  {
    hide LeavesOf;
    hide Tally;
    hide Leaves;
    hide Pass;
    hide PassTraps;
    PassTrapsWhen(ts, 0);
    forall j ensures !Doomed(ts, 0, j) {
      if Doomed(ts, 0, j) {
        SlotCount(ts, j);
      }
    }
    var us := Pass(ts, 0);
    PassFacts(ts, 0);
    PassNormal(ts, 0);
    if Kids(us) > 0 && |LeavesOf(us)| < FAN_OUT {
      PassProgress(ts);
      SmallNeverTraps(us);
    }
  }

  lemma CompactKind(t: Tree)
    requires WellFormed(t)
    ensures KindOf(Compact(t)) == KindOf(t) && Count(Compact(t)) == Count(t)
  {
    CompactNormal(t);
    CompactLeaves(t);
  }

  lemma {:induction false} SameTally(a: seq<Tree>, b: seq<Tree>, k: Kind)
    requires |a| == |b| && forall i :: 0 <= i < |a| ==> KindOf(a[i]) == KindOf(b[i])
    ensures Tally(a, k) == Tally(b, k)
  {
    if a != [] {
      SameTally(a[..|a| - 1], b[..|b| - 1], k);
    }
  }

  /** With 16 leaves on the branch there is one pass, and it keeps a child just when
      the counts say so. */
  lemma NodeKeeps(ss: seq<Tree>)
    requires AllWellFormed(ss) && |LeavesOf(ss)| == FAN_OUT
    ensures Kids(CompactNode(ss)) > 0 <==> Retains(ss, 0, Free(ss))
  {
    hide LeavesOf;
    hide Tally;
    hide Leaves;
    hide Compact;
    hide Pass;
    var ts := CompactAll(ss);
    forall i | 0 <= i < |ss|
      ensures KindOf(ts[i]) == KindOf(ss[i]) && Count(ts[i]) == Count(ss[i])
    {
      CompactAllAt(ss, i);
      CompactKind(ss[i]);
    }
    SameTally(ss, ts, EmptyKind);
    RetainsSame(ss, ts, 0, Free(ss));
    PassKeeps(ts, 0);
    PassFacts(ts, 0);
    NodeLeaves(ss);
    CompressFacts(ts);
  }

  lemma FullIsStuck(t: Tree)
    requires WellFormed(t)
    ensures Full(Compact(t)) <==> Stuck(t)
  {
    hide LeavesOf;
    hide Tally;
    hide CompactNode;
    CompactKind(t);
    match t
    case Empty =>
    case Leaf(_) =>
    case Node(ss) => StuckSlots(ss, t);
    case Shortcut(_, c) =>
      assert WellFormed(c);
      StuckSlots(c.slots, t);
  }

  lemma StuckSlots(ss: seq<Tree>, t: Tree)
    requires AllWellFormed(ss) && WellFormed(t)
    requires t == Node(ss) || (t.Shortcut? && t.target == Node(ss))
    ensures Full(Compact(t)) <==> Stuck(t)
  {
    hide LeavesOf;
    hide Tally;
    hide CompactNode;
    CompactKind(t);
    CompactNormal(t);
    NodeLeaves(ss);
    var r := CompactNode(ss);
    if |LeavesOf(ss)| == FAN_OUT {
      NodeKeeps(ss);
      if LoneShortcut(r) {
        LoneLeaves(r);
        NodeNormal(ss);
      }
    }
  }

  lemma DoomedIsSnag(ss: seq<Tree>, j: nat)
    requires AllWellFormed(ss) && j < |ss|
    ensures Doomed(CompactAll(ss), 0, j) <==> SnagAt(ss, j)
  {
    hide LeavesOf;
    hide Tally;
    hide Leaves;
    hide Compact;
    hide Full;
    hide Stuck;
    var ts := CompactAll(ss);
    forall i | 0 <= i < |ss|
      ensures KindOf(ts[i]) == KindOf(ss[i]) && Count(ts[i]) == Count(ss[i])
      ensures Full(ts[i]) <==> Stuck(ss[i])
    {
      CompactAllAt(ss, i);
      CompactKind(ss[i]);
      FullIsStuck(ss[i]);
    }
    forall i | 0 <= i < |ss|
      ensures ts[i].Empty? <==> ss[i].Empty?
    {
      assert KindOf(ts[i]) == KindOf(ss[i]);
    }
  }

  /** A collection fails an assertion exactly on the trees that have a snag. */
  lemma {:induction false} TrappedIffSnag(t: Tree)
    requires WellFormed(t)
    ensures Trapped(t) <==> HasSnag(t)
  {
    hide LeavesOf;
    hide Tally;
    hide Compact;
    hide CompactAll;
    hide CompressTraps;
    hide SnagAt;
    match t
    case Empty =>
    case Leaf(_) =>
    case Node(ss) =>
      var ts := CompactAll(ss);
      NodeNormal(ss);
      CompressTrapsWhen(ts);
      if j :| Doomed(ts, 0, j) {
        DoomedIsSnag(ss, j);
      }
      if j :| 0 <= j < |ss| && SnagAt(ss, j) {
        DoomedIsSnag(ss, j);
      }
      forall i | 0 <= i < |ss|
        ensures Trapped(ss[i]) <==> HasSnag(ss[i])
      {
        TrappedIffSnag(ss[i]);
      }
    case Shortcut(_, c) =>
      TrappedIffSnag(c);
  }

  /** Some branch of exactly 16 leaves is not flattened by its pass. */
  predicate AnyStuck(t: Tree) {
    match t
    case Empty => false
    case Leaf(_) => false
    case Node(ss) => Stuck(t) || exists i :: 0 <= i < |ss| && AnyStuck(ss[i])
    case Shortcut(_, c) => Stuck(t) || AnyStuck(c)
  }

  /** Without a stuck branch no assertion fails. */
  lemma {:induction false} SnagIsStuck(t: Tree)
    requires HasSnag(t)
    ensures AnyStuck(t)
  {
    match t
    case Node(ss) =>
      if j :| 0 <= j < |ss| && SnagAt(ss, j) {
        assert AnyStuck(ss[j]);
      } else {
        var i :| 0 <= i < |ss| && HasSnag(ss[i]);
        SnagIsStuck(ss[i]);
      }
    case Shortcut(_, c) => SnagIsStuck(c);
  }
}
