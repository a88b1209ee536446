/** Collecting a second time. A collection that keeps everything need not leave a
    collected tree as it is: a child that did not fit at its turn may fit once the
    children after it have been folded. This module says exactly when nothing changes. */
module Again {
  import opened AssocTree
  import opened Compress
  import opened Collect
  import opened NormalForm
  import opened Snag
  import opened Lookup
  import opened Readability

  /** No child anywhere fits into the free slots of its node and its own. */
  predicate NothingFits(t: Tree) {
    match t
    case Empty => true
    case Leaf(_) => true
    case Node(ss) => forall i :: 0 <= i < |ss| ==> !Fits(ss, i) && NothingFits(ss[i])
    case Shortcut(_, c) => NothingFits(c)
  }

  /** An iterator that keeps everything. */
  const ALL: Iterator := (_: seq<Obj>, _: Obj) => true

  lemma {:induction false} FilterAllKept(t: Tree, h: seq<Obj>)
    requires WellFormed(t)
    ensures Filter(t, ALL, h) == t
  {
    match t
    case Empty =>
    case Leaf(_) =>
    case Node(ss) =>
      forall i | 0 <= i < |ss| ensures FilterAll(ss, ALL, h)[i] == ss[i] {
        FilterAllAt(ss, ALL, h, i);
        FilterAllKept(ss[i], h + LeavesOf(ss[..i]));
      }
    case Shortcut(_, c) => FilterAllKept(c, h);
  }

  lemma {:induction false} PassIdle(ts: seq<Tree>, i: nat)
    requires i <= |ts| && forall j :: 0 <= j < |ts| ==> !Fits(ts, j)
    ensures Pass(ts, i) == ts
    decreases |ts| - i
  {
    hide Fits;
    if i < |ts| {
      PassIdle(ts, i + 1);
    }
  }

  lemma {:induction false} CompressKids(ts: seq<Tree>)
    requires |ts| == FAN_OUT
    ensures Kids(Compress.Compress(ts)) <= Kids(Pass(ts, 0))
    decreases Kids(ts)
  {
    hide LeavesOf;
    hide Tally;
    hide Pass;
    var us := Pass(ts, 0);
    if Kids(us) > 0 && |LeavesOf(us)| < FAN_OUT {
      PassFacts(ts, 0);
      PassProgress(ts);
      PassFacts(us, 0);
      CompressKids(us);
    }
  }

  /** Slots in normal form that need no room made are left as they are, and no others. */
  lemma CompressIdle(ts: seq<Tree>)
    requires |ts| == FAN_OUT && (|LeavesOf(ts)| < FAN_OUT ==> Kids(ts) == 0)
    ensures Compress.Compress(ts) == ts <==> forall j :: 0 <= j < |ts| ==> !Fits(ts, j)
  {
    hide LeavesOf;
    hide Tally;
    hide Pass;
    hide Fits;
    if forall j :: 0 <= j < |ts| ==> !Fits(ts, j) {
      PassIdle(ts, 0);
    } else {
      var j :| 0 <= j < |ts| && Fits(ts, j);
      PassFolds(ts, 0, j);
      CompressKids(ts);
    }
  }

  /** A node in normal form is not replaced by a shortcut. */
  lemma {:induction false} NodeStays(ss: seq<Tree>)
    requires AllWellFormed(ss) && WellFormed(Node(ss)) && Normal(Node(ss))
    ensures Compact(Node(ss)) == Node(CompactNode(ss))
    decreases ss
  {
    hide LeavesOf;
    hide Leaves;
    hide Tally;
    hide CompactNode;
    var r := CompactNode(ss);
    if LoneShortcut(r) {
      AllFree(r);
      var i := Occupied(r, 0);
      KeptSlot(ss, i);
      LoneLeaves(r);
      NodeLeaves(ss);
      assert |multiset(Leaves(r[i]))| == |multiset(LeavesOf(r))|;
      forall k | 0 <= k < |ss| && k != i ensures ss[k].Empty? {
        TwoSlots(ss, k, i);
        CountEmpty(ss[k]);
      }
      AloneIsFree(ss, i);
      AllFree(ss);
      if ss[i].Node? {
        NodeStays(ss[i].slots);
      }
      assert false;
    }
  }

  /** A tree in normal form is left as it is by compacting exactly if nothing fits. */
  lemma {:induction false} UnchangedWhen(t: Tree)
    requires WellFormed(t) && Normal(t)
    ensures Compact(t) == t <==> NothingFits(t)
    decreases t, 1
  {
    hide LeavesOf;
    hide Tally;
    hide CompactNode;
    hide Fits;
    match t
    case Empty =>
    case Leaf(_) =>
    case Node(ss) => NodeUnchanged(ss);
    case Shortcut(k, c) =>
      SkipCompacts(k, c);
      NodeStays(c.slots);
      UnchangedWhen(c);
  }

  lemma {:induction false} NodeUnchanged(ss: seq<Tree>)
    requires AllWellFormed(ss) && WellFormed(Node(ss)) && Normal(Node(ss))
    ensures Compact(Node(ss)) == Node(ss) <==> NothingFits(Node(ss))
    decreases Node(ss), 0
  {
    hide LeavesOf;
    hide Tally;
    hide Fits;
    hide Compact;
    hide Compress.Compress;
    NodeStays(ss);
    var ts, r := CompactAll(ss), CompactNode(ss);
    forall i | 0 <= i < |ss|
      ensures ts[i] == Compact(ss[i]) && (ts[i] == ss[i] <==> NothingFits(ss[i]))
      ensures IsMeta(r[i]) ==> r[i] == ts[i]
      ensures !IsMeta(ss[i]) ==> ts[i] == ss[i]
    {
      CompactAllAt(ss, i);
      UnchangedWhen(ss[i]);
      KeptSlot(ss, i);
      CompactNormal(ss[i]);
    }
    CompressIdle(ss);
    if r == ss || (forall i :: 0 <= i < |ss| ==> NothingFits(ss[i])) {
      assert ts == ss;
    }
  }

  /** A second collection that keeps everything changes nothing exactly if nothing fits in
      the tree the first one left. */
  lemma SecondCollection(t: Tree)
    requires WellFormed(t)
    ensures WellFormed(Compact(t)) && WellFormed(Filter(Compact(t), ALL, []))
    ensures Compact(Filter(Compact(t), ALL, [])) == Compact(t) <==> NothingFits(Compact(t))
  {
    CompactWellFormed(t);
    CompactNormal(t);
    FilterAllKept(Compact(t), []);
    UnchangedWhen(Compact(t));
  }

  /** A stuck branch of 16 leaves never stays as it is. */
  lemma FullFits(t: Tree)
    requires WellFormed(t) && Full(t)
    ensures !NothingFits(t)
  {
    assert Leaves(t) == LeavesOf(t.slots);
    hide LeavesOf;
    hide Tally;
    SomeChildFits(t.slots);
  }
}
