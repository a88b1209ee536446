/** What a collection keeps and what shape it leaves behind. */
module NormalForm {
  import opened AssocTree
  import opened Compress
  import opened Collect

  lemma {:induction false} CompactAllAt(ts: seq<Tree>, i: nat)
    requires forall j :: 0 <= j < |ts| ==> WellFormed(ts[j])
    requires i < |ts|
    ensures CompactAll(ts)[i] == Compact(ts[i])
  {
    if i < |ts| - 1 {
      CompactAllAt(ts[..|ts| - 1], i);
    }
  }

  // ----- conservation

  lemma {:induction false} NoneLeft(ts: seq<Tree>)
    requires forall i :: 0 <= i < |ts| ==> Count(ts[i]) == 0
    ensures LeavesOf(ts) == []
  {
    if ts != [] {
      NoneLeft(ts[..|ts| - 1]);
    }
  }

  /** All leaves of a node sit below its only slot that has any. */
  lemma OnlyOne(ts: seq<Tree>, i: nat)
    requires i < |ts| && forall j :: 0 <= j < |ts| && j != i ==> Count(ts[j]) == 0
    ensures multiset(LeavesOf(ts)) == multiset(Leaves(ts[i]))
    ensures |LeavesOf(ts)| == Count(ts[i])
  {
    var us := ts[i := Empty];
    NoneLeft(us);
    LeavesUpdate(ts, i, Empty);
    assert multiset(LeavesOf(us)) == multiset{};
    assert multiset(Leaves(Empty)) == multiset{};
    assert multiset(LeavesOf(ts)) == multiset(Leaves(ts[i]));
    assert |multiset(LeavesOf(ts))| == |multiset(Leaves(ts[i]))|;
  }

  lemma LoneLeaves(ts: seq<Tree>)
    requires LoneShortcut(ts)
    ensures multiset(Leaves(Lone(ts))) == multiset(LeavesOf(ts))
    ensures Lone(ts) in ts
  {
    AllFree(ts);
    var i := Occupied(ts, 0);
    var us := ts[i := Empty];
    TallyUpdate(ts, i, Empty, EmptyKind);
    AllFree(us);
    forall j | 0 <= j < |ts| && j != i
      ensures Count(ts[j]) == 0
    {
      assert us[j].Empty?;
    }
    OnlyOne(ts, i);
  }

  /** Compacting moves leaves about, but neither loses, invents nor doubles one. */
  lemma {:induction false} CompactLeaves(t: Tree)
    requires WellFormed(t)
    ensures multiset(Leaves(Compact(t))) == multiset(Leaves(t))
    ensures Count(Compact(t)) == Count(t)
    decreases t, 1
  {
    assert |multiset(Leaves(t))| == Count(t);
    match t
    case Empty =>
    case Leaf(_) =>
    case Node(ss) =>
      NodeLeaves(ss);
      if LoneShortcut(CompactNode(ss)) {
        LoneLeaves(CompactNode(ss));
      }
    case Shortcut(_, c) =>
      assert WellFormed(c);
      NodeLeaves(c.slots);
      if LoneShortcut(CompactNode(c.slots)) {
        LoneLeaves(CompactNode(c.slots));
      }
  }

  lemma {:induction false} NodeLeaves(ss: seq<Tree>)
    requires AllWellFormed(ss)
    ensures multiset(LeavesOf(CompactNode(ss))) == multiset(LeavesOf(ss))
    ensures |LeavesOf(CompactNode(ss))| == |LeavesOf(ss)|
    decreases ss, 1
  {
    CompressFacts(CompactAll(ss));
    CompactAllLeaves(ss);
    assert |multiset(LeavesOf(ss))| == |multiset(LeavesOf(CompactNode(ss)))|;
  }

  lemma {:induction false} CompactAllLeaves(ts: seq<Tree>)
    requires forall i :: 0 <= i < |ts| ==> WellFormed(ts[i])
    ensures multiset(LeavesOf(CompactAll(ts))) == multiset(LeavesOf(ts))
    decreases ts, 0
  {
    if ts != [] {
      var n := |ts| - 1;
      assert CompactAll(ts)[..n] == CompactAll(ts[..n]);
      LeavesLast(ts);
      LeavesLast(CompactAll(ts));
      CompactAllLeaves(ts[..n]);
      CompactLeaves(ts[n]);
    }
  }

  // ----- normal form

  /** A node whose branch has fewer than 16 leaves holds nothing but leaves; every
      child has at least two leaves below it; every shortcut leads directly to a
      node of more than 16 leaves; no node holds just a shortcut. */
  ghost predicate Normal(t: Tree) {
    match t
    case Empty => true
    case Leaf(_) => true
    case Node(ss) =>
      && |ss| == FAN_OUT
      && (|LeavesOf(ss)| < FAN_OUT ==> Kids(ss) == 0)
      && !LoneShortcut(ss)
      && forall i :: 0 <= i < |ss| ==> Normal(ss[i]) && (IsMeta(ss[i]) ==> Count(ss[i]) >= 2)
    case Shortcut(_, c) => c.Node? && Normal(c) && Count(c) > FAN_OUT
  }

  ghost predicate AllNormal(ts: seq<Tree>) {
    |ts| == FAN_OUT && forall i :: 0 <= i < |ts| ==> Normal(ts[i])
  }

  /** A child that a pass retains has at least two leaves. */
  lemma {:induction false} PassRetains(ts: seq<Tree>, i: nat, j: nat)
    requires i <= j < |ts| && IsMeta(Pass(ts, i)[j])
    ensures Count(Pass(ts, i)[j]) >= 2
    decreases |ts| - i
  {
    hide LeavesOf;
    hide Tally;
    FoldSlotFacts(ts, i);
    if i < j {
      PassRetains(FoldSlot(ts, i), i + 1, j);
    } else {
      PassFacts(FoldSlot(ts, i), i + 1);
    }
  }

  lemma {:induction false} CompressRetains(ts: seq<Tree>, j: nat)
    requires |ts| == FAN_OUT && j < |ts| && IsMeta(Compress.Compress(ts)[j])
    ensures Count(Compress.Compress(ts)[j]) >= 2
    decreases Kids(ts)
  {
    hide LeavesOf;
    hide Tally;
    hide Pass;
    var us := Pass(ts, 0);
    if Kids(us) > 0 && |LeavesOf(us)| < FAN_OUT {
      PassFacts(ts, 0);
      PassProgress(ts);
      CompressRetains(us, j);
    } else {
      PassRetains(ts, 0, j);
    }
  }

  /** The slots of a compressed node are in normal form, but for a lone shortcut. */
  lemma CompressNormal(ts: seq<Tree>)
    requires AllNormal(ts)
    ensures var r := Compress.Compress(ts);
      && AllNormal(r)
      && (|LeavesOf(r)| < FAN_OUT ==> Kids(r) == 0)
      && (forall i :: 0 <= i < |r| && IsMeta(r[i]) ==> Count(r[i]) >= 2)
  {
    hide LeavesOf;
    hide Tally;
    hide Compress.Compress;
    hide Leaves;
    CompressFacts(ts);
    var r := Compress.Compress(ts);
    forall i | 0 <= i < |r|
      ensures Normal(r[i]) && (IsMeta(r[i]) ==> Count(r[i]) >= 2)
    {
      assert r[i] == ts[i] || !IsMeta(r[i]);
      if IsMeta(r[i]) {
        CompressRetains(ts, i);
      }
    }
  }

  lemma {:induction false} CompactNormal(t: Tree)
    requires WellFormed(t)
    ensures Normal(Compact(t))
    ensures IsMeta(Compact(t)) == IsMeta(t)
    ensures !IsMeta(t) ==> Compact(t) == t
    decreases t, 1
  {
    hide LeavesOf;
    hide Tally;
    hide CompactNode;
    match t
    case Empty =>
    case Leaf(_) =>
    case Node(ss) =>
      NodeNormal(ss);
      if LoneShortcut(CompactNode(ss)) {
        LoneLeaves(CompactNode(ss));
      }
    case Shortcut(_, c) =>
      assert WellFormed(c);
      NodeNormal(c.slots);
      if LoneShortcut(CompactNode(c.slots)) {
        LoneLeaves(CompactNode(c.slots));
      }
  }

  lemma {:induction false} NodeNormal(ss: seq<Tree>)
    requires AllWellFormed(ss)
    ensures AllNormal(CompactAll(ss))
    ensures var r := CompactNode(ss);
      && AllNormal(r)
      && (|LeavesOf(r)| < FAN_OUT ==> Kids(r) == 0)
      && (forall i :: 0 <= i < |r| && IsMeta(r[i]) ==> Count(r[i]) >= 2)
    decreases ss, 0
  {
    hide LeavesOf;
    hide Tally;
    hide Compact;
    forall i | 0 <= i < |ss|
      ensures Normal(CompactAll(ss)[i])
    {
      CompactAllAt(ss, i);
      CompactNormal(ss[i]);
    }
    CompressNormal(CompactAll(ss));
  }
}
