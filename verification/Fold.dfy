/** The loops that fold one child's leaves into its parent's free slots. */
module Fold {
  import opened AssocTree
  import opened Compress
  import opened Memory

  lemma {:induction false} PlaceOneMore(ts: seq<Tree>, objs: seq<Obj>, o: Obj)
    requires |objs| < Free(ts)
    ensures Free(Place(ts, objs)) > 0
    ensures Place(ts, objs + [o]) == Place(ts, objs)[FirstEmpty(Place(ts, objs)) := Leaf(o)]
    decreases |objs|
  {
    hide Tally;
    PlaceFacts(ts, objs);
    if objs == [] {
      assert [o][1..] == [];
      assert Place(ts, [o]) == Place(ts[FirstEmpty(ts) := Leaf(o)], []) by {
        TallyUpdate(ts, FirstEmpty(ts), Leaf(o), EmptyKind);
      }
      assert objs + [o] == [o];
    } else {
      var k := FirstEmpty(ts);
      TallyUpdate(ts, k, Leaf(objs[0]), EmptyKind);
      PlaceOneMore(ts[k := Leaf(objs[0])], objs[1..], o);
      assert (objs + [o])[1..] == objs[1..] + [o];
      assert (objs + [o])[0] == objs[0];
    }
  }

  lemma {:induction false} LeavesOfPrefix(ts: seq<Tree>, i: nat)
    requires i <= |ts|
    ensures |LeavesOf(ts[..i])| <= |LeavesOf(ts)|
  {
    if i == |ts| {
      assert ts[..i] == ts;
    } else {
      var n := |ts| - 1;
      LeavesOfPrefix(ts[..n], i);
      assert ts[..n][..i] == ts[..i];
    }
  }

  lemma LeavesOfNext(ts: seq<Tree>, i: nat)
    requires i < |ts|
    ensures LeavesOf(ts[..i + 1]) == LeavesOf(ts[..i]) + Leaves(ts[i])
  {
    assert ts[..i + 1][..i] == ts[..i];
  }

  /** Moves the leaves in `child` one by one into the free slots of `slots0`, the
      scan for a free slot resuming at `next0`; fails on a meta pointer in `child`.
      It does what placing each leaf into the lowest free slot does. */
  method FoldChild(slots0: seq<Ptr>, child: seq<Ptr>, next0: nat, free0: nat, ghost us: seq<Tree>, ghost cs: seq<Tree>)
    returns (bug: bool, slots: seq<Ptr>, next: nat, free: int)
    requires |slots0| == FAN_OUT && |child| == FAN_OUT && Mirrors(slots0, us) && Mirrors(child, cs)
    requires |LeavesOf(cs)| <= Free(us) && free0 == Free(us)
    requires next0 <= FAN_OUT && forall k :: 0 <= k < next0 ==> slots0[k] != Null
    ensures bug <==> Kids(cs) > 0
    ensures !bug ==>
      && |slots| == FAN_OUT && Mirrors(slots, Place(us, LeavesOf(cs)))
      && (forall k :: 0 <= k < FAN_OUT && slots0[k] != Null ==> slots[k] == slots0[k])
      && free == free0 - |LeavesOf(cs)|
      && next <= FAN_OUT && forall k :: 0 <= k < next ==> slots[k] != Null
  {
    hide LeavesOf;
    hide Leaves;
    hide Tally;
    hide Place;
    slots, next, free := slots0, next0, free0;
    bug := false;
    var i := 0;
    StartPlace(us, cs);
    while i < FAN_OUT
      invariant 0 <= i <= FAN_OUT
      invariant forall k :: 0 <= k < i ==> !IsMeta(cs[k])
      invariant |LeavesOf(cs[..i])| <= |LeavesOf(cs)|
      invariant |slots| == FAN_OUT && Mirrors(slots, Place(us, LeavesOf(cs[..i])))
      invariant forall k :: 0 <= k < FAN_OUT && slots0[k] != Null ==> slots[k] == slots0[k]
      invariant free == free0 - |LeavesOf(cs[..i])|
      invariant next <= FAN_OUT && forall k :: 0 <= k < next ==> slots[k] != Null
    {
      var p := child[i];
      assert Mirror(p, cs[i]);
      LeavesOfPrefix(cs, i + 1);
      if p == Null {
        SkipEmpty(cs, i);
        i := i + 1;
        continue;
      }
      if IsMetaPtr(p) {
        TallyPositive(cs, MetaKind);
        assert KindOf(cs[i]) == MetaKind;
        bug := true;
        return;
      }
      TakeLeaf(us, cs, i);
      ghost var placed := Place(us, LeavesOf(cs[..i]));
      ghost var first := FirstEmpty(placed);
      assert Mirror(slots[first], placed[first]);
      while slots[next] != Null
        invariant next <= first
        invariant forall k :: 0 <= k < next ==> slots[k] != Null
        decreases first - next
      {
        assert Mirror(slots[next], placed[next]);
        next := next + 1;
      }
      assert Mirror(slots[next], placed[next]);
      slots := slots[next := p];
      next := next + 1;
      free := free - 1;
      i := i + 1;
    }
    assert cs[..FAN_OUT] == cs;
    TallyPositive(cs, MetaKind);
  }

  lemma StartPlace(us: seq<Tree>, cs: seq<Tree>)
    ensures LeavesOf(cs[..0]) == [] && Place(us, []) == us
  {
  }

  lemma SkipEmpty(cs: seq<Tree>, i: nat)
    requires i < |cs| && cs[i].Empty?
    ensures LeavesOf(cs[..i + 1]) == LeavesOf(cs[..i])
  {
    LeavesOfNext(cs, i);
  }

  lemma TakeLeaf(us: seq<Tree>, cs: seq<Tree>, i: nat)
    requires i < |cs| && cs[i].Leaf? && |LeavesOf(cs[..i + 1])| <= Free(us)
    ensures LeavesOf(cs[..i + 1]) == LeavesOf(cs[..i]) + [cs[i].obj]
    ensures var placed := Place(us, LeavesOf(cs[..i]));
      && Free(placed) > 0
      && Place(us, LeavesOf(cs[..i + 1])) == placed[FirstEmpty(placed) := cs[i]]
  {
    LeavesOfNext(cs, i);
    hide LeavesOf;
    hide Tally;
    PlaceOneMore(us, LeavesOf(cs[..i]), cs[i].obj);
  }
}
