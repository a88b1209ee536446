/** Which children a collection keeps, and where it puts the leaves of those it folds.
    A branch of 16 leaves or more gets a single pass, so both are decided by leaf
    counts, taken from the left on the tree as it was before. */
module Retention {
  import opened AssocTree
  import opened Compress
  import opened Collect
  import opened NormalForm
  import opened Snag

  /** The slots free when slot `j` is looked at, if `free` of them are at slot `i`: a
      child that fits gives up its slot and takes one for each of its leaves. */
  function FreeFrom(ts: seq<Tree>, i: nat, free: int, j: nat): int
    requires i <= j <= |ts|
    decreases j - i
  {
    if i == j then free
    else
      var fits := IsMeta(ts[i]) && Count(ts[i]) <= free + 1;
      FreeFrom(ts, i + 1, if fits then free + 1 - Count(ts[i]) else free, j)
  }

  /** Slot `j` holds a child that does not fit at its turn. */
  predicate Stays(ts: seq<Tree>, j: nat)
    requires j < |ts|
  {
    IsMeta(ts[j]) && Count(ts[j]) > FreeFrom(ts, 0, Free(ts), j) + 1
  }

  // ----- one pass

  lemma {:induction false} FreeSame(a: seq<Tree>, b: seq<Tree>, i: nat, free: int, j: nat)
    requires |a| == |b| && i <= j <= |a|
    requires forall k :: i <= k < j ==> IsMeta(a[k]) == IsMeta(b[k]) && (IsMeta(a[k]) ==> Count(a[k]) == Count(b[k]))
    ensures FreeFrom(a, i, free, j) == FreeFrom(b, i, free, j)
    decreases j - i
  {
    if i < j {
      var fits := IsMeta(a[i]) && Count(a[i]) <= free + 1;
      FreeSame(a, b, i + 1, if fits then free + 1 - Count(a[i]) else free, j);
    }
  }

  /** A pass leaves a child in a slot just when it does not fit at its turn. */
  lemma {:induction false} PassStays(ts: seq<Tree>, i: nat, j: nat)
    requires i <= j < |ts|
    ensures IsMeta(Pass(ts, i)[j]) <==> IsMeta(ts[j]) && Count(ts[j]) > FreeFrom(ts, i, Free(ts), j) + 1
    decreases j - i
  {
    hide LeavesOf;
    hide Tally;
    hide Leaves;
    hide FoldSlot;
    FoldSlotFacts(ts, i);
    var us := FoldSlot(ts, i);
    PassFacts(us, i + 1);
    if i < j {
      PassStays(us, i + 1, j);
      forall k | i < k <= j
        ensures IsMeta(us[k]) == IsMeta(ts[k]) && (IsMeta(ts[k]) ==> us[k] == ts[k])
      {
        assert us[k] == ts[k] || (!ts[k].Leaf? && !IsMeta(us[k]));
      }
      FreeSame(ts, us, i + 1, Free(us), j);
    } else {
      assert us[i] == ts[i] || !IsMeta(us[i]);
      assert Pass(us, i + 1)[i] == us[i] || !IsMeta(Pass(us, i + 1)[i]);
    }
  }

  lemma OnePass(ts: seq<Tree>)
    requires |ts| == FAN_OUT && |LeavesOf(ts)| >= FAN_OUT
    ensures Compress.Compress(ts) == Pass(ts, 0)
  {
    PassFacts(ts, 0);
    hide LeavesOf;
    hide Pass;
  }

  // ----- one node

  /** After a node of 16 leaves or more is compacted, a slot holds a child just when that
      does not fit at its turn; with fewer leaves no slot does. What is kept is the
      child that was there, compacted, and what held a leaf holds it still. */
  lemma SlotKeeps(ss: seq<Tree>, j: nat)
    requires AllWellFormed(ss) && j < |ss|
    ensures var r := CompactNode(ss);
      && (IsMeta(r[j]) <==> |LeavesOf(ss)| >= 16 && Stays(ss, j))
      && (IsMeta(r[j]) ==> r[j] == Compact(ss[j]))
      && (ss[j].Leaf? ==> r[j] == ss[j])
  {
    hide LeavesOf;
    hide Tally;
    hide Leaves;
    hide Compact;
    hide Pass;
    hide Compress.Compress;
    var ts := CompactAll(ss);
    forall i | 0 <= i < |ss|
      ensures KindOf(ts[i]) == KindOf(ss[i]) && Count(ts[i]) == Count(ss[i])
      ensures ts[i] == Compact(ss[i]) && (!IsMeta(ss[i]) ==> ts[i] == ss[i])
    {
      CompactAllAt(ss, i);
      CompactKind(ss[i]);
      CompactNormal(ss[i]);
    }
    SameTally(ss, ts, EmptyKind);
    FreeSame(ss, ts, 0, Free(ss), j);
    NodeLeaves(ss);
    CompressFacts(ts);
    var r := CompactNode(ss);
    assert r[j] == ts[j] || (!ts[j].Leaf? && !IsMeta(r[j]));
    if |LeavesOf(ss)| >= FAN_OUT {
      OnePass(ts);
      PassStays(ts, 0, j);
    } else {
      TallyPositive(r, MetaKind);
    }
  }

  // ----- whole trees

  /** `rs` has children just where those of `ss` stay, and all its leaves where they were. */
  ghost predicate SlotsShaped(ss: seq<Tree>, rs: seq<Tree>)
    decreases ss, 0
  {
    && |rs| == |ss|
    && forall j :: 0 <= j < |ss| ==>
      if |LeavesOf(ss)| >= 16 && Stays(ss, j) then Shaped(ss[j], rs[j])
      else !IsMeta(rs[j]) && (ss[j].Leaf? ==> rs[j] == ss[j])
  }

  /** A shortcut takes the place of a node all of whose leaves are behind it. */
  ghost predicate GivesWay(ss: seq<Tree>, r: Tree)
    decreases ss, 0
  {
    r.Shortcut? && exists j :: 0 <= j < |ss| && Count(ss[j]) == |LeavesOf(ss)| && Shaped(ss[j], r)
  }

  /** `r` has nodes and shortcuts where leaf counts say a collection of `t` leaves them. */
  ghost predicate Shaped(t: Tree, r: Tree)
    decreases t, 1
  {
    match t
    case Empty => r == Empty
    case Leaf(_) => r == t
    case Node(ss) => (r.Node? && SlotsShaped(ss, r.slots)) || GivesWay(ss, r)
    case Shortcut(k, c) =>
      c.Node? &&
      if Count(c) <= 16 then r.Node? && SlotsShaped(c.slots, r.slots)
      else
        || (r.Shortcut? && r.skip == k && r.target.Node? && SlotsShaped(c.slots, r.target.slots))
        || GivesWay(c.slots, r)
  }

  /** Which slots hold children after a collection, on every level. */
  lemma {:induction false} CompactShaped(t: Tree)
    requires WellFormed(t)
    ensures Shaped(t, Compact(t))
    decreases t, 1
  {
    hide LeavesOf;
    hide Tally;
    hide CompactNode;
    hide SlotsShaped;
    hide GivesWay;
    match t
    case Empty =>
    case Leaf(_) =>
    case Node(ss) => NodeShaped(ss);
    case Shortcut(_, c) =>
      assert WellFormed(c);
      NodeShaped(c.slots);
      NodeLeaves(c.slots);
      assert Count(c) == |LeavesOf(c.slots)|;
      if LoneShortcut(CompactNode(c.slots)) {
        LoneMany(c.slots);
      }
  }

  lemma {:induction false} NodeShaped(ss: seq<Tree>)
    requires AllWellFormed(ss)
    ensures SlotsShaped(ss, CompactNode(ss))
    ensures LoneShortcut(CompactNode(ss)) ==> GivesWay(ss, Lone(CompactNode(ss)))
    decreases ss, 0
  {
    hide LeavesOf;
    hide Tally;
    hide Leaves;
    hide CompactNode;
    hide Compact;
    hide Shaped;
    hide Stays;
    var r := CompactNode(ss);
    forall j | 0 <= j < |ss|
      ensures IsMeta(r[j]) <==> |LeavesOf(ss)| >= 16 && Stays(ss, j)
      ensures IsMeta(r[j]) ==> r[j] == Compact(ss[j]) && Shaped(ss[j], r[j])
      ensures ss[j].Leaf? ==> r[j] == ss[j]
    {
      SlotKeeps(ss, j);
      CompactShaped(ss[j]);
    }
    if LoneShortcut(r) {
      LoneMany(ss);
      AllFree(r);
      var j := Occupied(r, 0);
      CompactKind(ss[j]);
      assert Shaped(ss[j], r[j]);
    }
  }

  /** Behind a lone shortcut are all leaves of the node, and more than 16. */
  lemma LoneMany(ss: seq<Tree>)
    requires AllWellFormed(ss) && LoneShortcut(CompactNode(ss))
    ensures Count(Lone(CompactNode(ss))) == |LeavesOf(ss)| > FAN_OUT && Lone(CompactNode(ss)).Shortcut?
  {
    hide LeavesOf;
    hide Tally;
    hide CompactNode;
    var r := CompactNode(ss);
    LoneLeaves(r);
    NodeLeaves(ss);
    NodeNormal(ss);
    AllFree(r);
    assert Normal(Lone(r)) && Lone(r).Shortcut?;
    assert |multiset(Leaves(Lone(r)))| == |multiset(LeavesOf(r))|;
  }

  // ----- where the leaves go

  /** Placing objects fills the free slots from the left, in order, and no other. */
  lemma {:induction false} PlaceAt(ts: seq<Tree>, objs: seq<Obj>, k: nat)
    requires |objs| <= Free(ts) && k < |ts|
    ensures var e := Free(ts[..k]);
      && |Place(ts, objs)| == |ts|
      && Place(ts, objs)[k] == if ts[k].Empty? && e < |objs| then Leaf(objs[e]) else ts[k]
    decreases |objs|
  {
    hide Tally;
    if objs != [] {
      var f := FirstEmpty(ts);
      var us := ts[f := Leaf(objs[0])];
      TallyUpdate(ts, f, Leaf(objs[0]), EmptyKind);
      PlaceAt(us, objs[1..], k);
      if k <= f {
        assert us[..k] == ts[..k];
        NoneFree(ts[..k]);
      } else {
        assert us[..k] == ts[..k][f := Leaf(objs[0])];
        TallyUpdate(ts[..k], f, Leaf(objs[0]), EmptyKind);
      }
    }
  }

  lemma NoneFree(ts: seq<Tree>)
    requires forall i :: 0 <= i < |ts| ==> !ts[i].Empty?
    ensures Free(ts) == 0
  {
    TallyPositive(ts, EmptyKind);
    hide Tally;
  }

  /** Folding a child puts its leaves, in slot order, into the free slots from the left,
      its own included, and changes no other slot. */
  lemma FoldPlaces(ts: seq<Tree>, i: nat, k: nat)
    requires i < |ts| && k < |ts| && Fits(ts, i)
    ensures var us := ts[i := Empty]; var e := Free(us[..k]);
      && |FoldSlot(ts, i)| == |ts|
      && FoldSlot(ts, i)[k] == if us[k].Empty? && e < Count(ts[i]) then Leaf(Leaves(ts[i])[e]) else us[k]
  {
    FitsMeans(ts, i);
    hide Tally;
    hide Place;
    PlaceAt(ts[i := Empty], Leaves(ts[i]), k);
  }
}
