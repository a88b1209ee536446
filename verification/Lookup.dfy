/** Finding an object by the digits of its key: follow nodes and shortcuts as far
    as they go, then scan the last node's slots for the object. A collection must
    not lose an object that could be found, nor make a dropped one findable. */
module Lookup {
  import opened AssocTree
  import opened Compress
  import opened Collect
  import opened NormalForm
  import opened Snag

  /** A base-16 digit: one level of the tree. */
  type Digit = d: nat | d < 16

  /** The digit of an object's key at a level. */
  type Keys = (Obj, nat) -> Digit

  const LEVEL_STEP: nat := 4
  const DIGITS_PER_WORD: nat := 16

  function Nibble(word: nat, k: nat): Digit {
    if k == 0 then word % 16 else Nibble(word / 16, k - 1)
  }

  /** The digits a shortcut spells out, from the root to the level it skips to. */
  function SkipPath(k: Skip): (p: seq<Digit>)
    ensures |p| == k.toLevel / LEVEL_STEP
  {
    seq(k.toLevel / LEVEL_STEP, (i: nat) =>
      if i / DIGITS_PER_WORD < |k.key| then Nibble(k.key[i / DIGITS_PER_WORD], i % DIGITS_PER_WORD) else 0)
  }

  predicate Find(t: Tree, o: Obj, level: nat, keys: Keys)
    requires WellFormed(t)
  {
    match t
    case Empty => false
    case Leaf(x) => x == o
    case Node(ss) =>
      var s := ss[keys(o, level)];
      if IsMeta(s) then Find(s, o, level + 1, keys) else Leaf(o) in ss
    case Shortcut(k, c) =>
      var p := SkipPath(k);
      (forall i :: level <= i < |p| ==> p[i] == keys(o, i)) && Find(c, o, |p|, keys)
  }

  predicate OnPath(o: Obj, path: seq<Digit>, keys: Keys) {
    forall i :: 0 <= i < |path| ==> keys(o, i) == path[i]
  }

  /** Every leaf sits on the path its key spells, and a leaf held directly by a node
      is not hidden by a child in the slot of its digit. */
  predicate Searchable(t: Tree, path: seq<Digit>, keys: Keys)
    requires WellFormed(t)
    decreases t
  {
    match t
    case Empty => true
    case Leaf(o) => OnPath(o, path, keys)
    case Node(ss) => forall i :: 0 <= i < |ss| ==> SlotSearchable(ss, i, path, keys)
    case Shortcut(k, c) =>
      path <= SkipPath(k) && Searchable(c, SkipPath(k), keys)
  }

  /** One slot's share of being searchable. */
  predicate SlotSearchable(ts: seq<Tree>, i: nat, path: seq<Digit>, keys: Keys)
    requires WellFormed(Node(ts)) && i < |ts|
    decreases ts
  {
    if IsMeta(ts[i]) then Searchable(ts[i], path + [i], keys)
    else ts[i].Leaf? ==> OnPath(ts[i].obj, path, keys) && !IsMeta(ts[keys(ts[i].obj, |path|)])
  }

  // ----- searching a searchable tree

  lemma {:induction false} InLeaves(ts: seq<Tree>, o: Obj)
    ensures o in LeavesOf(ts) <==> exists i :: 0 <= i < |ts| && o in Leaves(ts[i])
  {
    if ts != [] {
      var n := |ts| - 1;
      InLeaves(ts[..n], o);
      if i :| 0 <= i < |ts| && o in Leaves(ts[i]) {
        if i < n {
          assert o in Leaves(ts[..n][i]);
        }
      }
      if o in LeavesOf(ts[..n]) {
        var i :| 0 <= i < n && o in Leaves(ts[..n][i]);
        assert o in Leaves(ts[i]);
      }
    }
  }

  lemma {:induction false} LeavesOnPath(t: Tree, path: seq<Digit>, keys: Keys, o: Obj)
    requires WellFormed(t) && Searchable(t, path, keys) && o in Leaves(t)
    ensures OnPath(o, path, keys)
  {
    match t
    case Leaf(_) =>
    case Node(ss) =>
      InLeaves(ss, o);
      var i :| 0 <= i < |ss| && o in Leaves(ss[i]);
      assert SlotSearchable(ss, i, path, keys);
      if IsMeta(ss[i]) {
        LeavesOnPath(ss[i], path + [i], keys, o);
        Shorter(o, path, [i], keys);
      }
    case Shortcut(k, c) =>
      LeavesOnPath(c, SkipPath(k), keys, o);
      Shorter(o, path, SkipPath(k)[|path|..], keys);
  }

  lemma SameMembers(a: seq<Obj>, b: seq<Obj>, o: Obj)
    requires multiset(a) == multiset(b)
    ensures o in a <==> o in b
  {
    assert o in a <==> o in multiset(a);
    assert o in b <==> o in multiset(b);
  }

  lemma Shorter(o: Obj, path: seq<Digit>, rest: seq<Digit>, keys: Keys)
    requires OnPath(o, path + rest, keys)
    ensures OnPath(o, path, keys)
    ensures rest != [] ==> keys(o, |path|) == rest[0]
  {
    var whole := path + rest;
    assert forall i :: 0 <= i < |path| ==> whole[i] == path[i];
    assert rest != [] ==> whole[|path|] == rest[0];
  }

  /** In a searchable tree exactly the objects it holds are found. */
  lemma {:induction false} FindsItsLeaves(t: Tree, path: seq<Digit>, keys: Keys, o: Obj)
    requires WellFormed(t) && Searchable(t, path, keys) && OnPath(o, path, keys)
    ensures Find(t, o, |path|, keys) <==> o in Leaves(t)
    decreases t
  {
    hide LeavesOf;
    match t
    case Empty =>
    case Leaf(_) =>
    case Node(ss) =>
      var d := keys(o, |path|);
      InLeaves(ss, o);
      if IsMeta(ss[d]) {
        assert SlotSearchable(ss, d, path, keys);
        assert OnPath(o, path + [d], keys);
        FindsItsLeaves(ss[d], path + [d], keys, o);
      } else if Leaf(o) in ss {
        var i :| 0 <= i < |ss| && ss[i] == Leaf(o);
        assert o in Leaves(ss[i]);
      }
      if i :| 0 <= i < |ss| && o in Leaves(ss[i]) {
        assert SlotSearchable(ss, i, path, keys);
        if IsMeta(ss[i]) {
          LeavesOnPath(ss[i], path + [i], keys, o);
          Shorter(o, path, [i], keys);
        }
      }
    case Shortcut(k, c) =>
      var p := SkipPath(k);
      if o in Leaves(c) {
        LeavesOnPath(c, p, keys, o);
      }
      if forall i :: |path| <= i < |p| ==> p[i] == keys(o, i) {
        assert forall i :: 0 <= i < |path| ==> p[i] == path[i];
        FindsItsLeaves(c, p, keys, o);
      }
  }

  // ----- what a collection does to a searchable tree

  lemma {:induction false} NormalWellFormed(t: Tree)
    requires Normal(t)
    ensures WellFormed(t)
  {
    match t
    case Empty =>
    case Leaf(_) =>
    case Node(ss) =>
      forall i | 0 <= i < |ss| ensures WellFormed(ss[i]) {
        NormalWellFormed(ss[i]);
      }
    case Shortcut(_, c) => NormalWellFormed(c);
  }

  lemma CompactWellFormed(t: Tree)
    requires WellFormed(t)
    ensures WellFormed(Compact(t))
  {
    CompactNormal(t);
    NormalWellFormed(Compact(t));
  }

  lemma AllNormalWellFormed(ts: seq<Tree>)
    requires AllNormal(ts)
    ensures WellFormed(Node(ts))
  {
    forall i | 0 <= i < |ts| ensures WellFormed(ts[i]) {
      NormalWellFormed(ts[i]);
    }
  }

  lemma {:induction false} PlaceNew(ts: seq<Tree>, objs: seq<Obj>, k: nat)
    requires |objs| <= Free(ts) && k < |ts|
    requires Filled(ts, Place(ts, objs))
    ensures Place(ts, objs)[k] == ts[k] || (Place(ts, objs)[k].Leaf? && Place(ts, objs)[k].obj in objs)
    decreases |objs|
  {
    hide Tally;
    if objs != [] {
      var i := FirstEmpty(ts);
      var us := ts[i := Leaf(objs[0])];
      TallyUpdate(ts, i, Leaf(objs[0]), EmptyKind);
      PlaceFacts(us, objs[1..]);
      PlaceNew(us, objs[1..], k);
    }
  }

  /** A leaf that folding brings into a slot came from the folded child. */
  lemma FoldNew(ts: seq<Tree>, i: nat, k: nat)
    requires i < |ts| && k < |ts| && |FoldSlot(ts, i)| == |ts| && FoldSlot(ts, i)[k].Leaf?
    ensures FoldSlot(ts, i)[k] == ts[k] || (IsMeta(ts[i]) && FoldSlot(ts, i)[k].obj in Leaves(ts[i]))
  {
    hide LeavesOf;
    hide Tally;
    if Fits(ts, i) {
      TallyUpdate(ts, i, Empty, EmptyKind);
      PlaceFacts(ts[i := Empty], Leaves(ts[i]));
      PlaceNew(ts[i := Empty], Leaves(ts[i]), k);
    }
  }

  // ----- one node: leaves stay on their paths

  /** What the slots of a node hold is where its keys put it: below a child only
      objects whose next digit is its slot, and no leaf hidden by a child. */
  ghost predicate Laid(ts: seq<Tree>, path: seq<Digit>, keys: Keys) {
    |ts| == FAN_OUT && forall i :: 0 <= i < |ts| ==> SlotLaid(ts, i, path, keys)
  }

  ghost predicate SlotLaid(ts: seq<Tree>, i: nat, path: seq<Digit>, keys: Keys)
    requires |ts| == FAN_OUT && i < |ts|
  {
    if IsMeta(ts[i]) then forall o :: o in Leaves(ts[i]) ==> OnPath(o, path + [i], keys)
    else ts[i].Leaf? ==> OnPath(ts[i].obj, path, keys) && !IsMeta(ts[keys(ts[i].obj, |path|)])
  }

  lemma FoldLaid(ts: seq<Tree>, i: nat, path: seq<Digit>, keys: Keys)
    requires i < |ts| && Laid(ts, path, keys)
    ensures Laid(FoldSlot(ts, i), path, keys)
  {
    hide LeavesOf;
    hide Tally;
    hide Leaves;
    hide FoldSlot;
    hide OnPath;
    FoldSlotFacts(ts, i);
    var r := FoldSlot(ts, i);
    forall k | 0 <= k < |r|
      ensures SlotLaid(r, k, path, keys)
    {
      assert SlotLaid(ts, k, path, keys);
      if r[k].Leaf? {
        FoldNew(ts, i, k);
        if r[k] != ts[k] {
          assert SlotLaid(ts, i, path, keys);
          Shorter(r[k].obj, path, [i], keys);
        }
      }
    }
  }

  lemma {:induction false} PassLaid(ts: seq<Tree>, i: nat, path: seq<Digit>, keys: Keys)
    requires i <= |ts| && Laid(ts, path, keys)
    ensures Laid(Pass(ts, i), path, keys)
    decreases |ts| - i
  {
    hide LeavesOf;
    hide Tally;
    hide FoldSlot;
    hide SlotLaid;
    if i < |ts| {
      FoldSlotFacts(ts, i);
      FoldLaid(ts, i, path, keys);
      PassLaid(FoldSlot(ts, i), i + 1, path, keys);
    }
  }

  lemma {:induction false} CompressLaid(ts: seq<Tree>, path: seq<Digit>, keys: Keys)
    requires Laid(ts, path, keys)
    ensures Laid(Compress.Compress(ts), path, keys)
    decreases Kids(ts)
  {
    hide LeavesOf;
    hide Tally;
    hide Pass;
    hide SlotLaid;
    var us := Pass(ts, 0);
    PassLaid(ts, 0, path, keys);
    if Kids(us) > 0 && |LeavesOf(us)| < FAN_OUT {
      PassFacts(ts, 0);
      PassProgress(ts);
      CompressLaid(us, path, keys);
    }
  }

  /** Compressing a node of a searchable tree leaves it laid out by its keys, whatever
      became of its children. */
  lemma NodeLaid(ss: seq<Tree>, path: seq<Digit>, keys: Keys)
    requires WellFormed(Node(ss)) && Searchable(Node(ss), path, keys)
    ensures AllWellFormed(ss) && Laid(CompactNode(ss), path, keys)
  {
    hide LeavesOf;
    hide Tally;
    hide Leaves;
    hide Compact;
    hide OnPath;
    var ts := CompactAll(ss);
    forall i | 0 <= i < |ss|
      ensures ts[i] == Compact(ss[i]) && IsMeta(ts[i]) == IsMeta(ss[i]) && (!IsMeta(ss[i]) ==> ts[i] == ss[i])
    {
      CompactAllAt(ss, i);
      CompactNormal(ss[i]);
    }
    forall i | 0 <= i < |ts|
      ensures SlotLaid(ts, i, path, keys)
    {
      assert SlotSearchable(ss, i, path, keys);
      if IsMeta(ts[i]) {
        CompactLeaves(ss[i]);
        forall o | o in Leaves(ts[i]) ensures OnPath(o, path + [i], keys) {
          SameMembers(Leaves(ts[i]), Leaves(ss[i]), o);
          LeavesOnPath(ss[i], path + [i], keys, o);
        }
      }
    }
    CompressLaid(ts, path, keys);
  }

  /** What is kept in a slot is the child compacted there. */
  lemma KeptSlot(ss: seq<Tree>, i: nat)
    requires AllWellFormed(ss) && i < |ss|
    ensures var r := CompactNode(ss);
      IsMeta(r[i]) ==> IsMeta(ss[i]) && r[i] == Compact(ss[i]) && Count(r[i]) == Count(ss[i]) >= 2
  {
    hide LeavesOf;
    hide Tally;
    hide Leaves;
    hide Compact;
    CompressFacts(CompactAll(ss));
    CompactAllAt(ss, i);
    CompactKind(ss[i]);
    if IsMeta(CompactNode(ss)[i]) {
      CompressRetains(CompactAll(ss), i);
    }
  }

  lemma {:induction false} FilterSearchable(t: Tree, iter: Iterator, h: seq<Obj>, path: seq<Digit>, keys: Keys)
    requires WellFormed(t) && Searchable(t, path, keys)
    ensures WellFormed(Filter(t, iter, h)) && Searchable(Filter(t, iter, h), path, keys)
    decreases t
  {
    FilterWellFormed(t, iter, h);
    match t
    case Empty =>
    case Leaf(_) =>
    case Node(ss) =>
      var r := FilterAll(ss, iter, h);
      forall i | 0 <= i < |ss|
        ensures r[i] == Filter(ss[i], iter, h + LeavesOf(ss[..i])) && IsMeta(r[i]) == IsMeta(ss[i])
      {
        FilterAllAt(ss, iter, h, i);
        FilterWellFormed(ss[i], iter, h + LeavesOf(ss[..i]));
      }
      forall i | 0 <= i < |r|
        ensures SlotSearchable(r, i, path, keys)
      {
        assert SlotSearchable(ss, i, path, keys);
        if IsMeta(ss[i]) {
          FilterSearchable(ss[i], iter, h + LeavesOf(ss[..i]), path + [i], keys);
        }
      }
    case Shortcut(k, c) =>
      FilterSearchable(c, iter, h, SkipPath(k), keys);
  }
}
