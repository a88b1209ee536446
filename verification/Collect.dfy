/** What a whole collection means, on values: filter the leaves through the
    iterator, then compact every node from the bottom up. */
module Collect {
  import opened AssocTree
  import opened Compress

  /** The caller's iterator: it may depend on the objects presented before. */
  type Iterator = (seq<Obj>, Obj) -> bool

  // ----- filtering

  /** Drops the leaves the iterator rejects; `h` is what it saw before this tree. */
  function Filter(t: Tree, iter: Iterator, h: seq<Obj>): Tree {
    match t
    case Empty => Empty
    case Leaf(o) => if iter(h, o) then t else Empty
    case Node(ss) => Node(FilterAll(ss, iter, h))
    case Shortcut(k, c) => Shortcut(k, Filter(c, iter, h))
  }

  function FilterAll(ts: seq<Tree>, iter: Iterator, h: seq<Obj>): (r: seq<Tree>)
    ensures |r| == |ts|
  {
    if ts == [] then []
    else
      var n := |ts| - 1;
      FilterAll(ts[..n], iter, h) + [Filter(ts[n], iter, h + LeavesOf(ts[..n]))]
  }

  /** The objects accepted when `objs` are presented in order after `h`. */
  function Accepted(objs: seq<Obj>, iter: Iterator, h: seq<Obj>): seq<Obj> {
    if objs == [] then []
    else
      var n := |objs| - 1;
      Accepted(objs[..n], iter, h) + if iter(h + objs[..n], objs[n]) then [objs[n]] else []
  }

  lemma {:induction false} AcceptedAppend(a: seq<Obj>, b: seq<Obj>, iter: Iterator, h: seq<Obj>)
    ensures Accepted(a + b, iter, h) == Accepted(a, iter, h) + Accepted(b, iter, h + a)
  {
    if b == [] {
      assert a + b == a;
    } else {
      var n := |b| - 1;
      AcceptedAppend(a, b[..n], iter, h);
      assert (a + b)[..|a + b| - 1] == a + b[..n];
      assert h + (a + b[..n]) == (h + a) + b[..n];
    }
  }

  /** Filtering presents every leaf once, in slot order, and keeps the accepted
      ones in order. */
  lemma {:induction false} FilterLeaves(t: Tree, iter: Iterator, h: seq<Obj>)
    ensures Leaves(Filter(t, iter, h)) == Accepted(Leaves(t), iter, h)
    decreases t, 0
  {
    match t
    case Empty =>
    case Leaf(o) =>
      assert h + [o][..0] == h;
      assert Accepted([o][..0], iter, h) == [];
    case Node(ss) => FilterAllLeaves(ss, iter, h);
    case Shortcut(_, c) => FilterLeaves(c, iter, h);
  }

  lemma {:induction false} FilterAllLeaves(ts: seq<Tree>, iter: Iterator, h: seq<Obj>)
    ensures LeavesOf(FilterAll(ts, iter, h)) == Accepted(LeavesOf(ts), iter, h)
    decreases ts
  {
    if ts != [] {
      var n := |ts| - 1;
      var r := FilterAll(ts, iter, h);
      assert r[..n] == FilterAll(ts[..n], iter, h);
      FilterAllLeaves(ts[..n], iter, h);
      FilterLeaves(ts[n], iter, h + LeavesOf(ts[..n]));
      AcceptedAppend(LeavesOf(ts[..n]), Leaves(ts[n]), iter, h);
    }
  }

  lemma {:induction false} FilterAllAt(ts: seq<Tree>, iter: Iterator, h: seq<Obj>, i: nat)
    requires i < |ts|
    ensures FilterAll(ts, iter, h)[i] == Filter(ts[i], iter, h + LeavesOf(ts[..i]))
  {
    var n := |ts| - 1;
    if i < n {
      FilterAllAt(ts[..n], iter, h, i);
      assert ts[..n][..i] == ts[..i];
    }
  }

  /** `r` is `t` without some of its leaves, and otherwise the same: nodes and shortcuts
      stay, even if nothing is left below them. */
  predicate Pruned(t: Tree, r: Tree) {
    match t
    case Empty => r == Empty
    case Leaf(_) => r == t || r == Empty
    case Node(ss) => r.Node? && |r.slots| == |ss| && forall i :: 0 <= i < |ss| ==> Pruned(ss[i], r.slots[i])
    case Shortcut(k, c) => r.Shortcut? && r.skip == k && Pruned(c, r.target)
  }

  lemma {:induction false} FilterPrunes(t: Tree, iter: Iterator, h: seq<Obj>)
    ensures Pruned(t, Filter(t, iter, h))
  {
    match t
    case Empty =>
    case Leaf(_) =>
    case Node(ss) =>
      forall i | 0 <= i < |ss|
        ensures Pruned(ss[i], FilterAll(ss, iter, h)[i])
      {
        FilterAllAt(ss, iter, h, i);
        FilterPrunes(ss[i], iter, h + LeavesOf(ss[..i]));
      }
    case Shortcut(_, c) => FilterPrunes(c, iter, h);
  }

  lemma {:induction false} FilterWellFormed(t: Tree, iter: Iterator, h: seq<Obj>)
    requires WellFormed(t)
    ensures WellFormed(Filter(t, iter, h)) && KindOf(Filter(t, iter, h)).MetaKind? == IsMeta(t)
  {
    match t
    case Empty =>
    case Leaf(_) =>
    case Node(ss) =>
      forall i | 0 <= i < |ss|
        ensures WellFormed(FilterAll(ss, iter, h)[i])
      {
        FilterAllAt(ss, iter, h, i);
        FilterWellFormed(ss[i], iter, h + LeavesOf(ss[..i]));
      }
    case Shortcut(_, c) => FilterWellFormed(c, iter, h);
  }

  // ----- compacting

  /** The only occupant of the node is a shortcut. */
  predicate LoneShortcut(ts: seq<Tree>) {
    Free(ts) + 1 == |ts| && (AllFree(ts); ts[Occupied(ts, 0)].Shortcut?)
  }

  /** That shortcut. */
  function Lone(ts: seq<Tree>): Tree
    requires LoneShortcut(ts)
  {
    AllFree(ts);
    ts[Occupied(ts, 0)]
  }

  /** The first slot from `k` on that is in use. */
  function Occupied(ts: seq<Tree>, k: nat): (i: nat)
    requires exists j :: k <= j < |ts| && !ts[j].Empty?
    ensures k <= i < |ts| && !ts[i].Empty? && forall j :: k <= j < i ==> ts[j].Empty?
    decreases |ts| - k
  {
    if !ts[k].Empty? then k else Occupied(ts, k + 1)
  }

  lemma {:induction false} AllFree(ts: seq<Tree>)
    ensures Free(ts) <= |ts|
    ensures Free(ts) == |ts| <==> forall j :: 0 <= j < |ts| ==> ts[j].Empty?
  {
    if ts != [] {
      var n := |ts| - 1;
      AllFree(ts[..n]);
      if forall j :: 0 <= j < n ==> ts[..n][j].Empty? {
        assert forall j :: 0 <= j < n ==> ts[j].Empty?;
      } else {
        var j :| 0 <= j < n && !ts[..n][j].Empty?;
        assert !ts[j].Empty?;
      }
    }
  }

  /** The compressed slots of a node, once its slots have been compacted. */
  function CompactNode(ss: seq<Tree>): (r: seq<Tree>)
    requires AllWellFormed(ss)
    ensures |r| == FAN_OUT
    decreases ss, 1
  {
    Compress.Compress(CompactAll(ss))
  }

  function CompactAll(ts: seq<Tree>): (r: seq<Tree>)
    requires forall i :: 0 <= i < |ts| ==> WellFormed(ts[i])
    ensures |r| == |ts|
    decreases ts, 0
  {
    if ts == [] then []
    else CompactAll(ts[..|ts| - 1]) + [Compact(ts[|ts| - 1])]
  }

  /** The compacted tree: a node that holds only a shortcut gives way to it, and
      a shortcut to a node of at most 16 leaves gives way to the node. */
  function Compact(t: Tree): Tree
    requires WellFormed(t)
  {
    match t
    case Empty => Empty
    case Leaf(_) => t
    case Node(ss) =>
      var r := CompactNode(ss);
      if LoneShortcut(r) then Lone(r) else Node(r)
    case Shortcut(k, c) =>
      assert WellFormed(c);
      var r := CompactNode(c.slots);
      if LoneShortcut(r) then Lone(r)
      else if |LeavesOf(r)| <= FAN_OUT then Node(r)
      else Shortcut(k, Node(r))
  }
}
