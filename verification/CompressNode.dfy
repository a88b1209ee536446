/** Compressing one node of the new tree in memory. */
module CompressNode {
  import opened AssocTree
  import opened Compress
  import opened NormalForm
  import opened Snag
  import opened Memory
  import opened Heap
  import opened Fold

  /** Node `n` is still open; its slots lead to finished trees `ts`. */
  ghost predicate Open(mem: Mem, shape: Shape, n: Addr, ts: seq<Tree>) {
    && Closed(mem, shape) && n !in shape && n in mem && mem[n].NodeCell?
    && SlotsOk(mem, shape, mem[n].slots, ts, NodePtr(n))
  }

  /** Between the two states only slots and leaf count of `n` changed, and some
      finished cells were released. */
  ghost predicate OnlyFolded(mem: Mem, shape: Shape, mem': Mem, shape': Shape, n: Addr) {
    && shape'.Keys <= shape.Keys
    && (forall a :: a in shape' ==> shape'[a] == shape[a])
    && (forall a :: a in mem && a != n && (a in shape ==> a in shape') ==> a in mem' && mem'[a] == mem[a])
    && (forall a :: a in mem' ==> a in mem && (a in shape ==> a in shape'))
    && (forall a :: a in shape && a !in shape' ==> a in mem && mem[a].back == NodePtr(n))
    && n in mem && n in mem' && mem[n].NodeCell? && mem'[n].NodeCell?
    && mem'[n].back == mem[n].back && mem'[n].parentSlot == mem[n].parentSlot
  }

  lemma OnlyFoldedTrans(m0: Mem, s0: Shape, m1: Mem, s1: Shape, m2: Mem, s2: Shape, n: Addr)
    requires OnlyFolded(m0, s0, m1, s1, n) && OnlyFolded(m1, s1, m2, s2, n) && n !in s0
    ensures OnlyFolded(m0, s0, m2, s2, n)
  {
  }

  /** The leaves the pass will still add to the count: those below children from
      slot `i` on. */
  ghost function Below(ts: seq<Tree>, i: nat): nat
    requires i <= |ts|
    decreases |ts| - i
  {
    if i == |ts| then 0 else (if IsMeta(ts[i]) then Count(ts[i]) else 0) + Below(ts, i + 1)
  }

  lemma {:induction false} BelowSame(a: seq<Tree>, b: seq<Tree>, i: nat)
    requires |a| == |b| && i <= |a|
    requires forall j :: i <= j < |a| ==> IsMeta(a[j]) == IsMeta(b[j]) && (IsMeta(a[j]) ==> a[j] == b[j])
    ensures Below(a, i) == Below(b, i)
    decreases |a| - i
  {
    if i < |a| {
      BelowSame(a, b, i + 1);
    }
  }

  lemma {:induction false} BelowAll(ts: seq<Tree>, i: nat)
    requires i <= |ts|
    ensures Tally(ts[..i], LeafKind) + |LeavesOf(ts)| == |LeavesOf(ts[..i])| + Tally(ts, LeafKind) + Below(ts, i)
    decreases |ts| - i
  {
    if i == |ts| {
      assert ts[..i] == ts;
    } else {
      BelowAll(ts, i + 1);
      LeavesOfNext(ts, i);
      assert ts[..i + 1][..i] == ts[..i];
    }
  }

  lemma FoldKeepsMeta(ts: seq<Tree>, i: nat)
    requires i < |ts|
    ensures var r := FoldSlot(ts, i);
      && |r| == |ts|
      && forall j :: 0 <= j < |ts| && j != i ==> IsMeta(r[j]) == IsMeta(ts[j]) && (IsMeta(ts[j]) ==> r[j] == ts[j])
  {
    hide LeavesOf;
    hide Tally;
    hide FoldSlot;
    FoldSlotFacts(ts, i);
    var r := FoldSlot(ts, i);
    forall j | 0 <= j < |ts| && j != i
      ensures IsMeta(r[j]) == IsMeta(ts[j])
    {
      assert r[j] == ts[j] || (!ts[j].Leaf? && !IsMeta(r[j]));
    }
  }

  // ----- one slot

  /** What folding child `c` of slot `slot` leaves in memory, given the slots the
      fold loops computed. */
  lemma FoldedOpen(mem: Mem, shape: Shape, n: Addr, ts: seq<Tree>, slot: nat, slots: seq<Ptr>, branch: nat)
    requires Open(mem, shape, n, ts) && slot < FAN_OUT && mem[n].slots[slot].NodePtr? && Fits(ts, slot)
    requires |slots| == FAN_OUT && Mirrors(slots, FoldSlot(ts, slot))
    requires forall k :: 0 <= k < FAN_OUT && k != slot && mem[n].slots[k] != Null ==> slots[k] == mem[n].slots[k]
    ensures var c := mem[n].slots[slot].addr;
      var mem' := mem[n := mem[n].(slots := slots, branch := branch)] - {c};
      Open(mem', shape - {c}, n, FoldSlot(ts, slot)) && OnlyFolded(mem, shape, mem', shape - {c}, n)
  {
    hide LeavesOf;
    hide Tally;
    hide FoldSlot;
    var c := mem[n].slots[slot].addr;
    assert SlotOk(mem, shape, mem[n].slots[slot], ts[slot], NodePtr(n), slot);
    var mem1 := mem[n := mem[n].(slots := slots, branch := branch)];
    var mem', shape' := mem1 - {c}, shape - {c};
    ClosedFrame(mem, mem1, shape);
    ClosedDrop(mem1, shape, c);
    FoldKeepsMeta(ts, slot);
    FoldSlotFacts(ts, slot);
    var r := FoldSlot(ts, slot);
    forall k | 0 <= k < FAN_OUT
      ensures SlotOk(mem', shape', slots[k], r[k], NodePtr(n), k)
    {
      assert Mirror(slots[k], r[k]);
      assert SlotOk(mem, shape, mem[n].slots[k], ts[k], NodePtr(n), k);
    }
  }

  lemma FoldedAttached(mem: Mem, shape: Shape, n: Addr, ts: seq<Tree>, slot: nat, slots: seq<Ptr>, branch: nat)
    requires Open(mem, shape, n, ts) && slot < FAN_OUT && mem[n].slots[slot].NodePtr?
    requires ts[slot].Node? && Kids(ts[slot].slots) == 0
    requires |slots| == FAN_OUT
    requires forall k :: 0 <= k < FAN_OUT && k != slot && mem[n].slots[k] != Null ==> slots[k] == mem[n].slots[k]
    requires Attached(mem, shape)
    ensures var c := mem[n].slots[slot].addr;
      Attached(mem[n := mem[n].(slots := slots, branch := branch)] - {c}, shape - {c})
  {
    hide LeavesOf;
    var c := mem[n].slots[slot].addr;
    var mem' := mem[n := mem[n].(slots := slots, branch := branch)] - {c};
    assert SlotOk(mem, shape, mem[n].slots[slot], ts[slot], NodePtr(n), slot);
    ChildSlots(mem, shape, c);
    TallyPositive(ts[slot].slots, MetaKind);
    hide Tally;
    hide CellOk;
    forall k | 0 <= k < FAN_OUT ensures !IsMetaPtr(mem[c].slots[k]) {
      assert Mirror(mem[c].slots[k], ts[slot].slots[k]);
      assert !(KindOf(ts[slot].slots[k]) == MetaKind);
    }
    forall a | a in shape - {c} ensures a in mem' && AttachedAt(mem', a) {
      assert AttachedAt(mem, a);
      assert mem[a].back != ShortcutPtr(c) && mem[a].back != ShortcutPtr(n);
      AttachedStays(mem, mem', a);
    }
  }

  lemma ChildSlots(mem: Mem, shape: Shape, c: Addr)
    requires Closed(mem, shape) && c in shape && shape[c].Node?
    ensures c in mem && mem[c].NodeCell? && |mem[c].slots| == FAN_OUT
    ensures Mirrors(mem[c].slots, shape[c].slots)
    ensures mem[c].branch == |LeavesOf(shape[c].slots)| == Count(shape[c])
  {
    assert CellOk(mem, shape, c);
    var ps, ts := mem[c].slots, shape[c].slots;
    forall i | 0 <= i < |ps| ensures Mirror(ps[i], ts[i]) {
      assert SlotOk(mem, shape, ps[i], ts[i], NodePtr(c), i);
    }
  }

  /** The child that slot `slot` leads to, past a shortcut, and its leaf count. */
  lemma ChildOf(mem: Mem, shape: Shape, n: Addr, ts: seq<Tree>, slot: nat)
    requires Open(mem, shape, n, ts) && slot < FAN_OUT && IsMeta(ts[slot])
    ensures var p := mem[n].slots[slot];
      && IsMetaPtr(p) && p.addr in mem
      && (p.NodePtr? ==>
            && ts[slot].Node? && p.addr in shape && shape[p.addr] == ts[slot]
            && mem[p.addr].NodeCell? && mem[p.addr].branch == Count(ts[slot]))
      && (p.ShortcutPtr? ==>
            && ts[slot].Shortcut? && mem[p.addr].ShortcutCell? && mem[p.addr].next.NodePtr?
            && mem[p.addr].next.addr in mem && mem[mem[p.addr].next.addr].NodeCell?
            && mem[mem[p.addr].next.addr].branch == Count(ts[slot]))
  {
    hide LeavesOf;
    var p := mem[n].slots[slot];
    assert SlotOk(mem, shape, p, ts[slot], NodePtr(n), slot);
    assert CellOk(mem, shape, p.addr);
    if p.ShortcutPtr? {
      ChildSlots(mem, shape, mem[p.addr].next.addr);
    } else {
      ChildSlots(mem, shape, p.addr);
    }
  }

  /** Every slot below `next` is in use. */
  ghost predicate NextOk(ps: seq<Ptr>, next: nat) {
    next <= |ps| && forall k :: 0 <= k < next ==> ps[k] != Null
  }

  /** Looks at one slot during a pass: folds the child in it, keeps it, or fails. */
  method FoldSlotAt(mem0: Mem, n: Addr, slot: nat, next0: nat, free0: nat, ghost shape0: Shape, ghost ts: seq<Tree>)
    returns (bug: bool, mem: Mem, next: nat, free: nat, retained: bool, ghost shape: Shape)
    requires Open(mem0, shape0, n, ts) && AllNormal(ts) && slot < FAN_OUT
    requires free0 == Free(ts) && NextOk(mem0[n].slots, next0) && Attached(mem0, shape0)
    ensures bug <==> FoldTraps(ts, slot)
    ensures OnlyFolded(mem0, shape0, mem, shape, n)
    ensures !bug ==>
      && Attached(mem, shape)
      && Open(mem, shape, n, FoldSlot(ts, slot))
      && free == Free(FoldSlot(ts, slot)) && NextOk(mem[n].slots, next)
      && mem[n].branch == mem0[n].branch + (if IsMeta(ts[slot]) then Count(ts[slot]) else 0)
      && (retained <==> IsMeta(FoldSlot(ts, slot)[slot]))
  {
    hide LeavesOf;
    hide Leaves;
    hide Tally;
    hide Place;
    bug, mem, next, free, retained, shape := false, mem0, next0, free0, false, shape0;
    var ptr := mem[n].slots[slot];
    assert Mirror(ptr, ts[slot]) by {
      assert SlotOk(mem, shape, ptr, ts[slot], NodePtr(n), slot);
    }
    if !IsMetaPtr(ptr) {
      return;
    }
    ChildOf(mem, shape, n, ts, slot);
    var viaShortcut := ptr.ShortcutPtr?;
    var child := if viaShortcut then mem[ptr.addr].next.addr else ptr.addr;
    var branch := mem[n].branch + mem[child].branch;
    if mem[child].branch <= free + 1 {
      if viaShortcut {
        bug := true;
        return;
      }
      if slot < next {
        next := slot;
      }
      ghost var us := ts[slot := Empty];
      ClearSlot(mem, shape, n, ts, slot);
      ChildSlots(mem, shape, child);
      assert Leaves(ts[slot]) == LeavesOf(ts[slot].slots) by { LeavesOfNode(ts[slot]); }
      var slots, left;
      bug, slots, next, left := FoldChild(mem[n].slots[slot := Null], mem[child].slots, next, free + 1,
                                          us, ts[slot].slots);
      if bug {
        return;
      }
      FoldedOpen(mem, shape, n, ts, slot, slots, branch);
      FoldedAttached(mem, shape, n, ts, slot, slots, branch);
      free := left;
      mem := Release(mem[n := mem[n].(slots := slots, branch := branch)], child);
      shape := shape - {child};
      FoldSlotFacts(ts, slot);
    } else {
      retained := true;
      ghost var was := mem;
      mem := mem[n := mem[n].(branch := branch)];
      OpenRecount(was, shape, n, ts, branch);
    }
  }

  lemma LeavesOfNode(t: Tree)
    requires t.Node?
    ensures Leaves(t) == LeavesOf(t.slots)
  {
  }

  lemma ClearSlot(mem: Mem, shape: Shape, n: Addr, ts: seq<Tree>, slot: nat)
    requires Open(mem, shape, n, ts) && slot < FAN_OUT && IsMeta(ts[slot])
    ensures Mirrors(mem[n].slots[slot := Null], ts[slot := Empty])
    ensures Free(ts[slot := Empty]) == Free(ts) + 1
  {
    hide LeavesOf;
    hide Tally;
    TallyUpdate(ts, slot, Empty, EmptyKind);
    var ps, us := mem[n].slots[slot := Null], ts[slot := Empty];
    forall i | 0 <= i < |ps| ensures Mirror(ps[i], us[i]) {
      assert SlotOk(mem, shape, mem[n].slots[i], ts[i], NodePtr(n), i);
    }
  }

  // ----- whole passes

  /** Counts the free slots and the direct leaves. */
  method CountSlots(slots: seq<Ptr>, ghost ts: seq<Tree>) returns (free: nat, leaves: nat)
    requires Mirrors(slots, ts)
    ensures free == Free(ts) && leaves == Tally(ts, LeafKind)
  {
    free, leaves := 0, 0;
    var slot := 0;
    while slot < |slots|
      invariant 0 <= slot <= |slots|
      invariant free == Tally(ts[..slot], EmptyKind) && leaves == Tally(ts[..slot], LeafKind)
    {
      assert Mirror(slots[slot], ts[slot]);
      assert ts[..slot + 1][..slot] == ts[..slot];
      if slots[slot] == Null {
        free := free + 1;
      } else if slots[slot].LeafPtr? {
        leaves := leaves + 1;
      }
      slot := slot + 1;
    }
    assert ts[..slot] == ts;
  }

  lemma OpenMirrors(mem: Mem, shape: Shape, n: Addr, ts: seq<Tree>)
    requires Open(mem, shape, n, ts)
    ensures Mirrors(mem[n].slots, ts)
  {
    forall i | 0 <= i < FAN_OUT ensures Mirror(mem[n].slots[i], ts[i]) {
      assert SlotOk(mem, shape, mem[n].slots[i], ts[i], NodePtr(n), i);
    }
  }

  lemma OpenRecount(mem: Mem, shape: Shape, n: Addr, ts: seq<Tree>, branch: nat)
    requires Open(mem, shape, n, ts)
    requires Attached(mem, shape)
    ensures var mem' := mem[n := mem[n].(branch := branch)];
      Open(mem', shape, n, ts) && OnlyFolded(mem, shape, mem', shape, n) && Attached(mem', shape)
  {
    hide LeavesOf;
    var mem' := mem[n := mem[n].(branch := branch)];
    ClosedFrame(mem, mem', shape);
    SlotsFrame(mem, mem', shape, mem[n].slots, ts, NodePtr(n));
    forall a | a in shape ensures AttachedAt(mem', a) {
      AttachedStays(mem, mem', a);
    }
  }

  lemma PassStep(ts: seq<Tree>, i: nat)
    requires AllNormal(ts) && i < |ts|
    ensures AllNormal(FoldSlot(ts, i)) && |FoldSlot(ts, i)| == |ts|
    ensures Pass(ts, i) == Pass(FoldSlot(ts, i), i + 1)
    ensures !FoldTraps(ts, i) ==> PassTraps(ts, i) == PassTraps(FoldSlot(ts, i), i + 1)
    ensures FoldTraps(ts, i) ==> PassTraps(ts, i)
    ensures Below(ts, i) == (if IsMeta(ts[i]) then Count(ts[i]) else 0) + Below(FoldSlot(ts, i), i + 1)
  {
    FoldNormal(ts, i);
    FoldKeepsMeta(ts, i);
    hide LeavesOf;
    hide Tally;
    hide FoldSlot;
    BelowSame(ts, FoldSlot(ts, i), i + 1);
  }

  lemma BelowStart(ts: seq<Tree>)
    ensures Tally(ts, LeafKind) + Below(ts, 0) == |LeavesOf(ts)|
  {
    BelowAll(ts, 0);
    assert ts[..0] == [];
  }

  /** One pass over the slots, after counting them. */
  method FoldPass(mem0: Mem, n: Addr, ghost shape0: Shape, ghost ts: seq<Tree>)
    returns (bug: bool, mem: Mem, free: nat, retained: bool, ghost shape: Shape)
    requires Open(mem0, shape0, n, ts) && AllNormal(ts) && Attached(mem0, shape0)
    ensures bug <==> PassTraps(ts, 0)
    ensures OnlyFolded(mem0, shape0, mem, shape, n)
    ensures !bug ==>
      && Attached(mem, shape)
      && Open(mem, shape, n, Pass(ts, 0)) && AllNormal(Pass(ts, 0))
      && free == Free(Pass(ts, 0)) && mem[n].branch == |LeavesOf(ts)|
      && (retained <==> Kids(Pass(ts, 0)) > 0)
  {
    hide LeavesOf;
    hide Tally;
    hide FoldSlot;
    hide FoldTraps;
    hide PassTraps;
    hide Pass;
    hide Open;
    mem, shape, bug, retained := mem0, shape0, false, false;
    var leaves;
    OpenMirrors(mem, shape, n, ts);
    assert n in mem && mem[n].NodeCell? by { OpenNode(mem, shape, n, ts); }
    free, leaves := CountSlots(mem[n].slots, ts);
    OpenRecount(mem, shape, n, ts, leaves);
    mem := mem[n := mem[n].(branch := leaves)];
    BelowStart(ts);
    var next := 0;
    ghost var us := ts;
    var slot := 0;
    while slot < FAN_OUT
      invariant 0 <= slot <= FAN_OUT
      invariant Attached(mem, shape) && AllNormal(us) && Open(mem, shape, n, us) &&
          OnlyFolded(mem0, shape0, mem, shape, n)
      invariant Pass(us, slot) == Pass(ts, 0) && PassTraps(us, slot) == PassTraps(ts, 0)
      invariant free == Free(us) && NextOk(mem[n].slots, next)
      invariant mem[n].branch + Below(us, slot) == |LeavesOf(ts)|
      invariant retained <==> exists k :: 0 <= k < slot && IsMeta(us[k])
    {
      var kept;
      PassStep(us, slot);
      FoldKeepsMeta(us, slot);
      ghost var was, wasShape := mem, shape;
      bug, mem, next, free, kept, shape := FoldSlotAt(mem, n, slot, next, free, shape, us);
      assert n !in shape0 by { OpenNode(mem0, shape0, n, ts); }
      OnlyFoldedTrans(mem0, shape0, was, wasShape, mem, shape, n);
      if bug {
        return;
      }
      retained := retained || kept;
      us := FoldSlot(us, slot);
      slot := slot + 1;
    }
    PassEnd(us);
    TallyPositive(us, MetaKind);
  }

  lemma OpenNode(mem: Mem, shape: Shape, n: Addr, ts: seq<Tree>)
    requires Open(mem, shape, n, ts)
    ensures n in mem && mem[n].NodeCell? && n !in shape && |ts| == FAN_OUT == |mem[n].slots|
  {
  }

  lemma PassEnd(ts: seq<Tree>)
    ensures Pass(ts, |ts|) == ts && !PassTraps(ts, |ts|) && Below(ts, |ts|) == 0
  {
  }

  /** Passes until no child is retained or the branch holds 16 leaves or more. */
  method Run(mem0: Mem, n: Addr, ghost shape0: Shape, ghost ts0: seq<Tree>)
    returns (bug: bool, mem: Mem, free: nat, ghost shape: Shape)
    requires Open(mem0, shape0, n, ts0) && AllNormal(ts0) && Attached(mem0, shape0)
    ensures bug <==> CompressTraps(ts0)
    ensures OnlyFolded(mem0, shape0, mem, shape, n)
    ensures !bug ==>
      && Attached(mem, shape)
      && Open(mem, shape, n, Compress.Compress(ts0))
      && free == Free(Compress.Compress(ts0)) && mem[n].branch == |LeavesOf(ts0)|
  {
    hide LeavesOf;
    hide Tally;
    hide PassTraps;
    hide Pass;
    hide Open;
    OpenNode(mem0, shape0, n, ts0);
    mem, shape := mem0, shape0;
    ghost var ts := ts0;
    while true
      invariant Attached(mem, shape) && AllNormal(ts) && Open(mem, shape, n, ts) &&
          OnlyFolded(mem0, shape0, mem, shape, n)
      invariant Compress.Compress(ts) == Compress.Compress(ts0) && CompressTraps(ts) == CompressTraps(ts0)
      invariant |LeavesOf(ts)| == |LeavesOf(ts0)|
      decreases Kids(ts)
    {
      var retained;
      ghost var was, wasShape := mem, shape;
      bug, mem, free, retained, shape := FoldPass(mem, n, shape, ts);
      OnlyFoldedTrans(mem0, shape0, was, wasShape, mem, shape, n);
      if bug {
        return;
      }
      OpenNode(mem, shape, n, Pass(ts, 0));
      PassFacts(ts, 0);
      if !(retained && mem[n].branch < FAN_OUT) {
        return;
      }
      PassProgress(ts);
      ts := Pass(ts, 0);
    }
  }
}
