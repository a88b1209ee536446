/** The abstract value of an associative array: a 16-way radix tree whose slots
    hold nothing, a leaf object, a node, or a shortcut that leads to a node. */
module AssocTree {

  const FAN_OUT: nat := 16

  type Obj = nat

  /** What a shortcut carries besides its pointers: the level it skips to and the
      words of its index key. */
  datatype Skip = Skip(toLevel: nat, key: seq<nat>)

  datatype Tree =
    | Empty
    | Leaf(obj: Obj)
    | Node(slots: seq<Tree>)
    | Shortcut(skip: Skip, target: Tree)

  datatype Kind = EmptyKind | LeafKind | MetaKind

  function KindOf(t: Tree): Kind {
    match t
    case Empty => EmptyKind
    case Leaf(_) => LeafKind
    case Node(_) => MetaKind
    case Shortcut(_, _) => MetaKind
  }

  predicate IsMeta(t: Tree) {
    KindOf(t).MetaKind?
  }

  /** Every node has 16 slots and every shortcut leads to a node. */
  predicate WellFormed(t: Tree) {
    match t
    case Empty => true
    case Leaf(_) => true
    case Node(ss) => |ss| == FAN_OUT && forall i :: 0 <= i < |ss| ==> WellFormed(ss[i])
    case Shortcut(_, c) => c.Node? && WellFormed(c)
  }

  ghost predicate AllWellFormed(ts: seq<Tree>) {
    |ts| == FAN_OUT && forall i :: 0 <= i < |ts| ==> WellFormed(ts[i])
  }

  /** The objects below a tree, in slot order. */
  function Leaves(t: Tree): seq<Obj> {
    match t
    case Empty => []
    case Leaf(o) => [o]
    case Node(ss) => LeavesOf(ss)
    case Shortcut(_, c) => Leaves(c)
  }

  function LeavesOf(ts: seq<Tree>): seq<Obj> {
    if ts == [] then []
    else LeavesOf(ts[..|ts| - 1]) + Leaves(ts[|ts| - 1])
  }

  /** The number of leaves on a branch. */
  function Count(t: Tree): nat {
    |Leaves(t)|
  }

  /** The number of slots of one kind. */
  function Tally(ts: seq<Tree>, k: Kind): nat {
    if ts == [] then 0
    else Tally(ts[..|ts| - 1], k) + if KindOf(ts[|ts| - 1]) == k then 1 else 0
  }

  function Free(ts: seq<Tree>): nat {
    Tally(ts, EmptyKind)
  }

  function Kids(ts: seq<Tree>): nat {
    Tally(ts, MetaKind)
  }

  // ----- slot-by-slot accounting

  lemma {:induction false} TallyUpdate(ts: seq<Tree>, i: nat, x: Tree, k: Kind)
    requires i < |ts|
    ensures Tally(ts[i := x], k) + (if KindOf(ts[i]) == k then 1 else 0)
         == Tally(ts, k) + (if KindOf(x) == k then 1 else 0)
  {
    var n := |ts| - 1;
    var us := ts[i := x];
    if i == n {
      assert us[..n] == ts[..n];
    } else {
      assert us[..n] == ts[..n][i := x];
      TallyUpdate(ts[..n], i, x, k);
    }
  }

  lemma {:induction false} TallyTotal(ts: seq<Tree>)
    ensures Tally(ts, EmptyKind) + Tally(ts, LeafKind) + Tally(ts, MetaKind) == |ts|
  {
    if ts != [] {
      TallyTotal(ts[..|ts| - 1]);
    }
  }

  lemma {:induction false} TallyPositive(ts: seq<Tree>, k: Kind)
    ensures Tally(ts, k) > 0 <==> exists i :: 0 <= i < |ts| && KindOf(ts[i]) == k
  {
    if ts != [] {
      var n := |ts| - 1;
      TallyPositive(ts[..n], k);
      if i :| 0 <= i < |ts| && KindOf(ts[i]) == k {
        if i < n {
          assert KindOf(ts[..n][i]) == k;
        }
      }
      if Tally(ts[..n], k) > 0 {
        var i :| 0 <= i < n && KindOf(ts[..n][i]) == k;
        assert KindOf(ts[i]) == k;
      }
    }
  }

  lemma LeavesLast(ts: seq<Tree>)
    requires ts != []
    ensures multiset(LeavesOf(ts))
         == multiset(LeavesOf(ts[..|ts| - 1])) + multiset(Leaves(ts[|ts| - 1]))
  {
  }

  lemma {:induction false} LeavesUpdate(ts: seq<Tree>, i: nat, x: Tree)
    requires i < |ts|
    ensures multiset(LeavesOf(ts[i := x])) + multiset(Leaves(ts[i]))
         == multiset(LeavesOf(ts)) + multiset(Leaves(x))
  {
    hide LeavesOf;
    hide Leaves;
    var n := |ts| - 1;
    var us := ts[i := x];
    LeavesLast(ts);
    LeavesLast(us);
    if i == n {
      assert us[..n] == ts[..n];
    } else {
      assert us[..n] == ts[..n][i := x];
      assert us[n] == ts[n] && ts[..n][i] == ts[i];
      LeavesUpdate(ts[..n], i, x);
      AddToBoth(multiset(LeavesOf(us[..n])), multiset(Leaves(ts[i])),
                multiset(LeavesOf(ts[..n])), multiset(Leaves(x)), multiset(Leaves(ts[n])));
    }
  }

  lemma AddToBoth(a: multiset<Obj>, p: multiset<Obj>, b: multiset<Obj>, q: multiset<Obj>, r: multiset<Obj>)
    requires a + p == b + q
    ensures (a + r) + p == (b + r) + q
  {
    assert (a + r) + p == (a + p) + r;
    assert (b + r) + q == (b + q) + r;
  }

  /** The pigeonhole behind folding: if every child holds at least `c` leaves, the
      branch holds at least that many for each child, beside the direct leaves. */
  lemma {:induction false} LeavesAtLeast(ts: seq<Tree>, c: nat)
    requires forall i :: 0 <= i < |ts| && IsMeta(ts[i]) ==> Count(ts[i]) >= c
    ensures |LeavesOf(ts)| >= Tally(ts, LeafKind) + c * Kids(ts)
  {
    if ts != [] {
      var n := |ts| - 1;
      assert forall i :: 0 <= i < n ==> ts[..n][i] == ts[i];
      LeavesAtLeast(ts[..n], c);
      if IsMeta(ts[n]) {
        assert c * (Kids(ts[..n]) + 1) == c * Kids(ts[..n]) + c;
      }
    }
  }

  lemma {:induction false} LeavesAreSlots(ts: seq<Tree>)
    requires Kids(ts) == 0
    ensures |LeavesOf(ts)| == Tally(ts, LeafKind)
  {
    if ts != [] {
      LeavesAreSlots(ts[..|ts| - 1]);
    }
  }

  /** A slot's leaves are among its node's. */
  lemma {:induction false} SlotCount(ts: seq<Tree>, i: nat)
    requires i < |ts|
    ensures Count(ts[i]) <= |LeavesOf(ts)|
  {
    LeavesUpdate(ts, i, Empty);
    assert |multiset(LeavesOf(ts[i := Empty])) + multiset(Leaves(ts[i]))|
        == |LeavesOf(ts[i := Empty])| + |Leaves(ts[i])|;
  }

  lemma {:induction false} LeavesOfAppend(a: seq<Tree>, b: seq<Tree>)
    ensures LeavesOf(a + b) == LeavesOf(a) + LeavesOf(b)
  {
    if b == [] {
      assert a + b == a;
    } else {
      LeavesOfAppend(a, b[..|b| - 1]);
      assert (a + b)[..|a + b| - 1] == a + b[..|b| - 1];
    }
  }

  lemma {:induction false} TallyAppend(a: seq<Tree>, b: seq<Tree>, k: Kind)
    ensures Tally(a + b, k) == Tally(a, k) + Tally(b, k)
  {
    if b == [] {
      assert a + b == a;
    } else {
      TallyAppend(a, b[..|b| - 1], k);
      assert (a + b)[..|a + b| - 1] == a + b[..|b| - 1];
    }
  }
}
