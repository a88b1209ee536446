/** What happens to a node of the new tree once it is compressed: a node that holds
    just a shortcut is excised, and so is a shortcut to a node of at most 16 leaves. */
module Excise {
  import opened AssocTree
  import opened Collect
  import opened NormalForm
  import Snag
  import opened Memory
  import opened Heap
  import opened CompressNode
  import opened Traverse

  /** The tree a compressed node hands to its owner. */
  function Handed(via: Via, r: seq<Tree>): Tree {
    if LoneShortcut(r) then Lone(r)
    else match via
      case Direct => Node(r)
      case Through(_, k, _) => if |LeavesOf(r)| <= FAN_OUT then Node(r) else Shortcut(k, Node(r))
  }

  /** The frame's node is compressed to `r` and hangs in slot `slot` of `owner`. */
  ghost predicate Ready(mem: Mem, shape: Shape, newRoot: Ptr, f: Frame, r: seq<Tree>, owner: Ptr, slot: nat) {
    && Open(mem, shape, f.dst, r) && Attached(mem, shape) && AllNormal(r) && mem[f.dst].branch == |LeavesOf(r)|
    && DstLink(mem, f, owner, slot) && Own(f) !! shape.Keys
    && match owner
       case Null => newRoot == Entry(f)
       case NodePtr(o) =>
         && o in mem && mem[o].NodeCell? && slot < |mem[o].slots| && mem[o].slots[slot] == Entry(f)
         && o !in Own(f) && o !in shape
       case _ => false
  }

  /** `p` leads to the tree and hangs in the owner's slot. */
  ghost predicate Landed(mem: Mem, t: Tree, owner: Ptr, slot: nat, mem': Mem, shape': Shape, p: Ptr) {
    && IsMetaPtr(p) && Mirror(p, t) && p.addr in shape' && shape'[p.addr] == t
    && p.addr in mem' && Hangs(mem'[p.addr], owner, slot)
    && (owner.NodePtr? ==>
          && owner.addr in mem && owner.addr in mem' && mem[owner.addr].NodeCell? && slot < |mem[owner.addr].slots|
          && mem'[owner.addr] == mem[owner.addr].(slots := mem[owner.addr].slots[slot := p]))
  }

  /** The frame's cells are finished or released; `p` leads to the tree `t` and hangs
      where the frame's entry hung; every other cell is as it was. */
  ghost predicate Settled(mem: Mem, shape: Shape, newRoot: Ptr, f: Frame, t: Tree, owner: Ptr, slot: nat,
                          mem': Mem, shape': Shape, newRoot': Ptr, p: Ptr) {
    && Closed(mem', shape') && Attached(mem', shape') && Landed(mem, t, owner, slot, mem', shape', p)
    && newRoot' == (if owner.Null? then p else newRoot)
    && shape'.Keys <= shape.Keys + Own(f)
    && mem'.Keys == (mem.Keys - shape.Keys - Own(f)) + shape'.Keys
    && Spared(mem, shape, f, owner, mem', shape')
    && Housed(mem, shape, f, mem', shape', p)
  }

  /** But for the one hung in the slot, finished cells kept their owner, or belong to
      a cell of the frame. */
  ghost predicate Housed(mem: Mem, shape: Shape, f: Frame, mem': Mem, shape': Shape, p: Ptr) {
    forall a :: a in shape' && a in mem' && !(IsMetaPtr(p) && a == p.addr) ==>
      || (a in shape && a in mem && mem'[a].back == mem[a].back)
      || (IsMetaPtr(mem'[a].back) && mem'[a].back.addr in Own(f))
  }

  /** A cell that is neither the frame's, nor its owner, nor one of its children. */
  ghost predicate Foreign(mem: Mem, shape: Shape, f: Frame, owner: Ptr, a: Addr) {
    && a in mem && a !in Own(f) && (owner.NodePtr? ==> a != owner.addr)
    && (a in shape ==> mem[a].back != NodePtr(f.dst))
  }

  ghost predicate Spared(mem: Mem, shape: Shape, f: Frame, owner: Ptr, mem': Mem, shape': Shape) {
    forall a :: Foreign(mem, shape, f, owner, a) ==>
      SameCell(mem, mem', a) && (a in shape ==> a in shape' && shape'[a] == shape[a])
  }

  lemma OpenSlot(mem: Mem, shape: Shape, n: Addr, ts: seq<Tree>, i: nat)
    requires Open(mem, shape, n, ts) && i < FAN_OUT
    ensures SlotOk(mem, shape, mem[n].slots[i], ts[i], NodePtr(n), i)
  {
  }

  /** Hangs `p` in the slot of a node. */
  function SetSlot(mem: Mem, o: Addr, slot: nat, p: Ptr): Mem
    requires o in mem && mem[o].NodeCell? && slot < |mem[o].slots|
  {
    mem[o := mem[o].(slots := mem[o].slots[slot := p])]
  }

  // ----- the node stays

  lemma StaysDirect(mem: Mem, shape: Shape, newRoot: Ptr, f: Frame, r: seq<Tree>, owner: Ptr, slot: nat)
    requires Ready(mem, shape, newRoot, f, r, owner, slot) && f.via.Direct?
    ensures Settled(mem, shape, newRoot, f, Node(r), owner, slot, mem, shape[f.dst := Node(r)], newRoot, Entry(f))
  {
    hide LeavesOf;
    hide SlotsOk;
    hide CellOk;
    hide AllNormal;
    ShapeInMem(mem, shape);
    ClosedNode(mem, shape, f.dst, r);
    assert AttachedAt(mem, f.dst);
  }

  lemma StaysBehindShortcut(mem: Mem, shape: Shape, newRoot: Ptr, f: Frame, r: seq<Tree>, owner: Ptr, slot: nat)
    requires Ready(mem, shape, newRoot, f, r, owner, slot) && f.via.Through?
    ensures var t := Shortcut(f.via.skip, Node(r));
      Settled(mem, shape, newRoot, f, t, owner, slot,
              mem, shape[f.dst := Node(r)][f.via.dstSkip := t], newRoot, Entry(f))
  {
    hide LeavesOf;
    hide SlotsOk;
    hide CellOk;
    hide AllNormal;
    ShapeInMem(mem, shape);
    ClosedNode(mem, shape, f.dst, r);
    ClosedShortcut(mem, shape[f.dst := Node(r)], f.via.dstSkip);
    assert AttachedAt(mem, f.dst) && AttachedAt(mem, f.via.dstSkip);
  }

  // ----- the shortcut goes

  /** Memory after the shortcut before the node is excised. */
  function WithoutSkip(mem: Mem, n: Addr, s: Addr, owner: Ptr, slot: nat): Mem
    requires n in mem && mem[n].NodeCell?
  {
    mem[n := Rehang(mem[n], owner, slot)] - {s}
  }

  /** ... and the node hung in its place. */
  function Rehung(mem: Mem, owner: Ptr, slot: nat, p: Ptr): Mem
    requires owner.NodePtr? ==>
      owner.addr in mem && mem[owner.addr].NodeCell? && slot < |mem[owner.addr].slots|
  {
    if owner.NodePtr? then SetSlot(mem, owner.addr, slot, p) else mem
  }

  lemma SkipGoes(mem: Mem, shape: Shape, newRoot: Ptr, f: Frame, r: seq<Tree>, owner: Ptr, slot: nat, slot': nat)
    requires Ready(mem, shape, newRoot, f, r, owner, slot) && f.via.Through?
    requires owner.NodePtr? ==> slot' == slot
    ensures f.dst in mem && mem[f.dst].NodeCell?
    ensures var mem1 := WithoutSkip(mem, f.dst, f.via.dstSkip, owner, slot');
      var p := NodePtr(f.dst);
      && (owner.NodePtr? ==> owner.addr in mem1 && mem1[owner.addr].NodeCell? && slot < |mem1[owner.addr].slots|)
      && Settled(mem, shape, newRoot, f, Node(r), owner, slot,
                 Rehung(mem1, owner, slot, p), shape[f.dst := Node(r)], if owner.Null? then p else newRoot, p)
  {
    hide *;
    SkipGoesClosed(mem, shape, newRoot, f, r, owner, slot, slot');
    SkipGoesAttached(mem, shape, newRoot, f, r, owner, slot, slot');
    SkipGoesKeys(mem, shape, newRoot, f, r, owner, slot, slot');
    SkipGoesSpared(mem, shape, newRoot, f, r, owner, slot, slot');
    var p := NodePtr(f.dst);
    SettledIf(mem, shape, newRoot, f, Node(r), owner, slot,
              Rehung(WithoutSkip(mem, f.dst, f.via.dstSkip, owner, slot'), owner, slot, p), shape[f.dst := Node(r)], p);
  }

  lemma SettledIf(mem: Mem, shape: Shape, newRoot: Ptr, f: Frame, t: Tree, owner: Ptr, slot: nat,
                  mem': Mem, shape': Shape, p: Ptr)
    requires Closed(mem', shape') && Attached(mem', shape') && Landed(mem, t, owner, slot, mem', shape', p)
    requires shape'.Keys <= shape.Keys + Own(f) && mem'.Keys == (mem.Keys - shape.Keys - Own(f)) + shape'.Keys
    requires Spared(mem, shape, f, owner, mem', shape') && Housed(mem, shape, f, mem', shape', p)
    ensures Settled(mem, shape, newRoot, f, t, owner, slot, mem', shape', if owner.Null? then p else newRoot, p)
  {
    hide Closed;
    hide Attached;
    hide Spared;
    hide Housed;
    hide Landed;
    hide Own;
  }

  lemma SkipGoesKeys(mem: Mem, shape: Shape, newRoot: Ptr, f: Frame, r: seq<Tree>, owner: Ptr, slot: nat, slot': nat)
    requires Ready(mem, shape, newRoot, f, r, owner, slot) && f.via.Through?
    requires owner.NodePtr? ==> slot' == slot
    ensures f.dst in mem && mem[f.dst].NodeCell?
    ensures var mem1 := WithoutSkip(mem, f.dst, f.via.dstSkip, owner, slot');
      && (owner.NodePtr? ==> owner.addr in mem1 && mem1[owner.addr].NodeCell? && slot < |mem1[owner.addr].slots|)
      && var mem', shape' := Rehung(mem1, owner, slot, NodePtr(f.dst)), shape[f.dst := Node(r)];
      && Landed(mem, Node(r), owner, slot, mem', shape', NodePtr(f.dst))
      && shape'.Keys <= shape.Keys + Own(f) && mem'.Keys == (mem.Keys - shape.Keys - Own(f)) + shape'.Keys
  {
    hide LeavesOf;
    hide Open;
    hide AllNormal;
    hide Attached;
    OpenNode(mem, shape, f.dst, r);
    OpenClosed(mem, shape, f.dst, r);
    hide Closed;
    ShapeInMem(mem, shape);
  }

  lemma SkipGoesSpared(mem: Mem, shape: Shape, newRoot: Ptr, f: Frame, r: seq<Tree>, owner: Ptr, slot: nat, slot': nat)
    requires Ready(mem, shape, newRoot, f, r, owner, slot) && f.via.Through?
    requires owner.NodePtr? ==> slot' == slot
    ensures f.dst in mem && mem[f.dst].NodeCell?
    ensures var mem1 := WithoutSkip(mem, f.dst, f.via.dstSkip, owner, slot');
      && (owner.NodePtr? ==> owner.addr in mem1 && mem1[owner.addr].NodeCell? && slot < |mem1[owner.addr].slots|)
      && var mem', shape' := Rehung(mem1, owner, slot, NodePtr(f.dst)), shape[f.dst := Node(r)];
      && Spared(mem, shape, f, owner, mem', shape') && Housed(mem, shape, f, mem', shape', NodePtr(f.dst))
  {
    hide LeavesOf;
    hide Open;
    hide AllNormal;
    hide Attached;
    OpenNode(mem, shape, f.dst, r);
    OpenClosed(mem, shape, f.dst, r);
    hide Closed;
    ShapeInMem(mem, shape);
  }

  lemma SkipGoesClosed(mem: Mem, shape: Shape, newRoot: Ptr, f: Frame, r: seq<Tree>, owner: Ptr, slot: nat, slot': nat)
    requires Ready(mem, shape, newRoot, f, r, owner, slot) && f.via.Through?
    requires owner.NodePtr? ==> slot' == slot
    ensures f.dst in mem && mem[f.dst].NodeCell?
    ensures var mem1 := WithoutSkip(mem, f.dst, f.via.dstSkip, owner, slot');
      && (owner.NodePtr? ==> owner.addr in mem1 && mem1[owner.addr].NodeCell? && slot < |mem1[owner.addr].slots|)
      && Closed(Rehung(mem1, owner, slot, NodePtr(f.dst)), shape[f.dst := Node(r)])
  {
    hide LeavesOf;
    hide SlotsOk;
    hide CellOk;
    hide AllNormal;
    ShapeInMem(mem, shape);
    ClosedNode(mem, shape, f.dst, r);
    var shape' := shape[f.dst := Node(r)];
    var moved := mem[f.dst := Rehang(mem[f.dst], owner, slot')];
    ClosedMove(mem, shape', f.dst, moved[f.dst]);
    var mem1 := WithoutSkip(mem, f.dst, f.via.dstSkip, owner, slot');
    ClosedFrame(moved, mem1, shape');
    ClosedFrame(mem1, Rehung(mem1, owner, slot, NodePtr(f.dst)), shape');
  }

  lemma SkipGoesAttached(mem: Mem, shape: Shape, newRoot: Ptr, f: Frame, r: seq<Tree>, owner: Ptr, slot: nat,
                         slot': nat)
    requires Ready(mem, shape, newRoot, f, r, owner, slot) && f.via.Through?
    requires owner.NodePtr? ==> slot' == slot
    ensures f.dst in mem && mem[f.dst].NodeCell?
    ensures var mem1 := WithoutSkip(mem, f.dst, f.via.dstSkip, owner, slot');
      && (owner.NodePtr? ==> owner.addr in mem1 && mem1[owner.addr].NodeCell? && slot < |mem1[owner.addr].slots|)
      && Attached(Rehung(mem1, owner, slot, NodePtr(f.dst)), shape[f.dst := Node(r)])
  {
    hide LeavesOf;
    hide SlotsOk;
    hide CellOk;
    hide AllNormal;
    ShapeInMem(mem, shape);
    var mem1 := WithoutSkip(mem, f.dst, f.via.dstSkip, owner, slot');
    var mem' := Rehung(mem1, owner, slot, NodePtr(f.dst));
    var shape' := shape[f.dst := Node(r)];
    forall a | a in shape' ensures a in mem' && AttachedAt(mem', a) {
      if a != f.dst {
        assert AttachedAt(mem, a);
        AttachedStays(mem, mem', a);
      }
    }
  }

  // ----- the node goes

  /** Where the lone shortcut of the node is. */
  lemma LonePlace(mem: Mem, shape: Shape, n: Addr, r: seq<Tree>, i: nat)
    requires Open(mem, shape, n, r) && Free(r) + 1 == |r| && i < FAN_OUT && mem[n].slots[i] != Null
    ensures LoneShortcut(r) <==> mem[n].slots[i].ShortcutPtr?
    ensures LoneShortcut(r) ==>
      var p := mem[n].slots[i];
      && p.addr in shape && shape[p.addr] == Lone(r) && p.addr in mem && mem[p.addr].ShortcutCell?
      && mem[p.addr].back == NodePtr(n) && mem[p.addr].parentSlot == i
  {
    hide LeavesOf;
    OpenSlot(mem, shape, n, r, i);
    Snag.AloneIsFree(r, i);
    AllFree(r);
    assert Occupied(r, 0) == i;
    hide Tally;
    hide LoneShortcut;
    if mem[n].slots[i].ShortcutPtr? {
      assert CellOk(mem, shape, mem[n].slots[i].addr);
    }
    assert LoneShortcut(r) <==> r[i].Shortcut? by { LoneWhere(r, i); }
    if LoneShortcut(r) {
      LoneWhere(r, i);
    }
  }

  lemma LoneWhere(r: seq<Tree>, i: nat)
    requires Free(r) + 1 == |r| && i < |r|
    requires exists j :: 0 <= j < |r| && !r[j].Empty?
    requires Occupied(r, 0) == i
    ensures LoneShortcut(r) <==> r[i].Shortcut?
    ensures LoneShortcut(r) ==> Lone(r) == r[i]
  {
    AllFree(r);
  }

  /** Memory after the node, and a shortcut before it, give way to the shortcut `c`. */
  function WithoutNode(mem: Mem, f: Frame, c: Addr, owner: Ptr, slot: nat): Mem
    requires c in mem && c !in Own(f) && mem[c].ShortcutCell?
  {
    (mem - Own(f))[c := Rehang(mem[c], owner, slot)]
  }

  lemma NodeGoesClosed(mem: Mem, shape: Shape, f: Frame, c: Addr, owner: Ptr, slot: nat, oslot: nat, p: Ptr)
    requires Closed(mem, shape) && Own(f) !! shape.Keys
    requires c in shape && c in mem && mem[c].ShortcutCell? && !Owned(shape, mem[c].back)
    requires owner.NodePtr? ==>
      && owner.addr in mem && mem[owner.addr].NodeCell? && oslot < |mem[owner.addr].slots|
      && owner.addr !in shape && owner.addr !in Own(f)
    ensures Closed(Rehung(WithoutNode(mem, f, c, owner, slot), owner, oslot, p), shape)
  {
    hide CellOk;
    hide Own;
    ShapeInMem(mem, shape);
    var less := mem - Own(f);
    ClosedFrame(mem, less, shape);
    ClosedMove(less, shape, c, Rehang(mem[c], owner, slot));
    var mem1 := WithoutNode(mem, f, c, owner, slot);
    ClosedFrame(mem1, Rehung(mem1, owner, oslot, p), shape);
  }

  /** The lone shortcut is the node's only finished child. */
  lemma OnlyChild(mem: Mem, shape: Shape, n: Addr, r: seq<Tree>, i: nat, a: Addr)
    requires Open(mem, shape, n, r) && Attached(mem, shape) && Free(r) + 1 == |r|
    requires i < FAN_OUT && mem[n].slots[i].ShortcutPtr? && a in shape && mem[a].back == NodePtr(n)
    ensures a == mem[n].slots[i].addr
  {
    hide LeavesOf;
    hide Tally;
    hide CellOk;
    OpenMirrors(mem, shape, n, r);
    assert Mirror(mem[n].slots[i], r[i]);
    Snag.AloneIsFree(r, i);
    assert AttachedAt(mem, a);
    assert Mirror(mem[n].slots[mem[a].parentSlot], r[mem[a].parentSlot]);
  }

  lemma NodeGoesAttached(mem: Mem, shape: Shape, f: Frame, c: Addr, owner: Ptr, slot: nat, slot': nat)
    requires Attached(mem, shape) && Own(f) !! shape.Keys && (owner.Null? || owner.NodePtr?)
    requires owner.NodePtr? ==>
      && owner.addr in mem && mem[owner.addr].NodeCell? && slot < |mem[owner.addr].slots|
      && owner.addr !in shape && owner.addr !in Own(f) && slot' == slot && mem[owner.addr].slots[slot] == Entry(f)
    requires c in shape && c in mem && mem[c].ShortcutCell?
    requires forall a :: a in shape && a in mem && mem[a].back == NodePtr(f.dst) ==> a == c
    requires f.dst in mem && mem[f.dst].NodeCell?
    requires f.via.Through? ==>
      f.via.dstSkip in mem && mem[f.via.dstSkip].ShortcutCell? && mem[f.via.dstSkip].next == NodePtr(f.dst)
    ensures Attached(Rehung(WithoutNode(mem, f, c, owner, slot'), owner, slot, ShortcutPtr(c)), shape)
  {
    var mem' := Rehung(WithoutNode(mem, f, c, owner, slot'), owner, slot, ShortcutPtr(c));
    forall a | a in shape ensures a in mem' && AttachedAt(mem', a) {
      if a != c {
        assert AttachedAt(mem, a);
        AttachedStays(mem, mem', a);
      }
    }
  }

  lemma NodeGoesSettled(mem: Mem, shape: Shape, newRoot: Ptr, f: Frame, t: Tree, owner: Ptr, slot: nat, c: Addr,
                        slot': nat)
    requires Closed(mem, shape) && Own(f) !! shape.Keys && (owner.Null? || owner.NodePtr?)
    requires owner.NodePtr? ==>
      && owner.addr in mem && mem[owner.addr].NodeCell? && slot < |mem[owner.addr].slots|
      && owner.addr !in shape && owner.addr !in Own(f) && slot' == slot && mem[owner.addr].slots[slot] == Entry(f)
    requires forall a :: a in shape && a in mem && mem[a].back == NodePtr(f.dst) ==> a == c
    requires Attached(mem, shape) && f.dst in mem && mem[f.dst].NodeCell?
    requires f.via.Through? ==>
      f.via.dstSkip in mem && mem[f.via.dstSkip].ShortcutCell? && mem[f.via.dstSkip].next == NodePtr(f.dst)
    requires c in shape && shape[c] == t && t.Shortcut?
    requires c in mem && mem[c].ShortcutCell? && mem[c].back == NodePtr(f.dst)
    ensures var mem1 := WithoutNode(mem, f, c, owner, slot'); var p := ShortcutPtr(c);
      && (owner.NodePtr? ==> owner.addr in mem1 && mem1[owner.addr].NodeCell? && slot < |mem1[owner.addr].slots|)
      && Settled(mem, shape, newRoot, f, t, owner, slot,
                 Rehung(mem1, owner, slot, p), shape, if owner.Null? then p else newRoot, p)
  {
    hide CellOk;
    OwnDst(f);
    hide Own;
    ShapeInMem(mem, shape);
    NodeGoesAttached(mem, shape, f, c, owner, slot, slot');
    hide Attached;
    NodeGoesClosed(mem, shape, f, c, owner, slot', slot, ShortcutPtr(c));
    hide Closed;
  }

  lemma NodeGoes(mem: Mem, shape: Shape, newRoot: Ptr, f: Frame, r: seq<Tree>, owner: Ptr, slot: nat, i: nat,
                 slot': nat)
    requires Ready(mem, shape, newRoot, f, r, owner, slot) && LoneShortcut(r)
    requires i < FAN_OUT && f.dst in mem && mem[f.dst].NodeCell? && i < |mem[f.dst].slots| &&
        mem[f.dst].slots[i].ShortcutPtr?
    requires owner.NodePtr? ==> slot' == slot
    ensures var p := mem[f.dst].slots[i];
      && p.addr in mem && p.addr !in Own(f) && mem[p.addr].ShortcutCell?
      && var mem1 := WithoutNode(mem, f, p.addr, owner, slot');
      && (owner.NodePtr? ==> owner.addr in mem1 && mem1[owner.addr].NodeCell? && slot < |mem1[owner.addr].slots|)
      && Settled(mem, shape, newRoot, f, Lone(r), owner, slot,
                 Rehung(mem1, owner, slot, p), shape, if owner.Null? then p else newRoot, p)
  {
    LoneIsLone(r);
    LonePlace(mem, shape, f.dst, r, i);
    OpenClosed(mem, shape, f.dst, r);
    forall a | a in shape && a in mem && mem[a].back == NodePtr(f.dst) ensures a == mem[f.dst].slots[i].addr {
      OnlyChild(mem, shape, f.dst, r, i, a);
    }
    ReadyParts(mem, shape, newRoot, f, r, owner, slot);
    hide Open;
    hide Closed;
    hide Attached;
    hide AllNormal;
    hide LoneShortcut;
    hide Lone;
    hide Own;
    hide DstLink;
    hide Settled;
    NodeGoesSettled(mem, shape, newRoot, f, Lone(r), owner, slot, mem[f.dst].slots[i].addr, slot');
  }

  lemma LoneIsLone(r: seq<Tree>)
    requires LoneShortcut(r)
    ensures Free(r) + 1 == |r|
    ensures Lone(r).Shortcut?
  {
  }

  lemma OpenClosed(mem: Mem, shape: Shape, n: Addr, r: seq<Tree>)
    requires Open(mem, shape, n, r)
    ensures Closed(mem, shape)
  {
  }

  lemma ReadyParts(mem: Mem, shape: Shape, newRoot: Ptr, f: Frame, r: seq<Tree>, owner: Ptr, slot: nat)
    requires Ready(mem, shape, newRoot, f, r, owner, slot)
    ensures Open(mem, shape, f.dst, r) && |r| == FAN_OUT && mem[f.dst].branch == |LeavesOf(r)|
    ensures f.dst in mem && mem[f.dst].NodeCell? && |mem[f.dst].slots| == FAN_OUT
    ensures f.via.Direct? ==> Hangs(mem[f.dst], owner, slot)
    ensures f.via.Through? ==>
      && mem[f.dst].back == ShortcutPtr(f.via.dstSkip)
      && f.via.dstSkip in mem && mem[f.via.dstSkip].ShortcutCell? && Hangs(mem[f.via.dstSkip], owner, slot)
      && mem[f.via.dstSkip].next == NodePtr(f.dst)
    ensures owner.Null? || owner.NodePtr?
    ensures owner.Null? ==> newRoot == Entry(f)
    ensures owner.NodePtr? ==>
      && owner.addr in mem && mem[owner.addr].NodeCell? && slot < |mem[owner.addr].slots| && owner.addr !in Own(f)
  {
  }

  /** The slot of the only occupant. */
  method FindOccupant(slots: seq<Ptr>, ghost ts: seq<Tree>) returns (slot: nat)
    requires Mirrors(slots, ts) && |slots| == FAN_OUT && Free(ts) + 1 == |ts|
    ensures slot < |slots| && slots[slot] != Null
  {
    AllFree(ts);
    slot := 0;
    ghost var i :| 0 <= i < |ts| && !ts[i].Empty?;
    assert Mirror(slots[i], ts[i]);
    while slots[slot] == Null
      invariant slot <= i
      decreases i - slot
    {
      slot := slot + 1;
    }
  }

  /** Excises the compressed node `n` in favour of the shortcut `ptr` it holds alone,
      along with a shortcut before it. */
  method ExciseNode(mem0: Mem, newRoot0: Ptr, n: Addr, at: nat, ghost shape: Shape, ghost f: Frame,
                    ghost r: seq<Tree>, ghost owner: Ptr, ghost oslot: nat)
    returns (mem: Mem, newRoot: Ptr, complete: bool, up: Ptr)
    requires n == f.dst && Ready(mem0, shape, newRoot0, f, r, owner, oslot) && LoneShortcut(r)
    requires at < FAN_OUT && n in mem0 && mem0[n].NodeCell? && at < |mem0[n].slots| && mem0[n].slots[at].ShortcutPtr?
    ensures Settled(mem0, shape, newRoot0, f, Lone(r), owner, oslot, mem, shape, newRoot, mem0[n].slots[at])
    ensures up == owner && (complete <==> owner.Null?)
  {
    hide Ready;
    hide Settled;
    hide LoneShortcut;
    hide Lone;
    ReadyParts(mem0, shape, newRoot0, f, r, owner, oslot);
    OwnDst(f);
    mem, newRoot := mem0, newRoot0;
    var ptr := mem[n].slots[at];
    var newS := ptr.addr;
    up := mem[n].back;
    var slot := mem[n].parentSlot;
    NodeGoes(mem0, shape, newRoot0, f, r, owner, oslot, at,
             if f.via.Direct? then slot else mem0[f.via.dstSkip].parentSlot);
    NodeGoes(mem0, shape, newRoot0, f, r, owner, oslot, at, if owner.NodePtr? then oslot else 0);
    mem := Release(mem, n);
    if up == Null {
      mem := mem[newS := Rehang(mem[newS], Null, 0)];
      newRoot := ptr;
      assert mem == WithoutNode(mem0, f, newS, owner, 0);
      complete := true;
      return;
    }
    if up.ShortcutPtr? {
      var s := up.addr;
      up := mem[s].back;
      slot := mem[s].parentSlot;
      mem := mem[newS := Rehang(mem[newS], up, slot)];
      mem := Release(mem, s);
      if up == Null {
        mem := mem[newS := Rehang(mem[newS], Null, 0)];
        newRoot := ptr;
        assert mem == WithoutNode(mem0, f, newS, owner, 0);
        complete := true;
        return;
      }
    }
    mem := mem[newS := Rehang(mem[newS], up, slot)];
    assert mem == WithoutNode(mem0, f, newS, owner, slot);
    mem := SetSlot(mem, up.addr, slot, ptr);
    complete := false;
  }

  /** What the code does with a node it has just compressed. */
  method Finish(mem0: Mem, newRoot0: Ptr, n: Addr, free: nat, ghost shape0: Shape, ghost f: Frame,
                ghost r: seq<Tree>, ghost owner: Ptr, ghost oslot: nat)
    returns (mem: Mem, newRoot: Ptr, complete: bool, up: Ptr, ghost shape: Shape, ghost p: Ptr)
    requires n == f.dst && free == Free(r) && Ready(mem0, shape0, newRoot0, f, r, owner, oslot)
    ensures Settled(mem0, shape0, newRoot0, f, Handed(f.via, r), owner, oslot, mem, shape, newRoot, p)
    ensures up == owner && (complete ==> owner.Null?)
    ensures owner.Null? && f.via.Direct? ==> complete
  {
    hide Ready;
    hide Settled;
    hide LoneShortcut;
    hide Lone;
    hide LeavesOf;
    hide Tally;
    ReadyParts(mem0, shape0, newRoot0, f, r, owner, oslot);
    OwnDst(f);
    mem, newRoot, shape := mem0, newRoot0, shape0;
    OpenMirrors(mem, shape, n, r);
    if free == FAN_OUT - 1 {
      var at := FindOccupant(mem[n].slots, r);
      LonePlace(mem, shape, n, r, at);
      if mem[n].slots[at].ShortcutPtr? {
        p := mem[n].slots[at];
        mem, newRoot, complete, up := ExciseNode(mem, newRoot, n, at, shape, f, r, owner, oslot);
        return;
      }
    } else if LoneShortcut(r) {
      LoneIsLone(r);
    }
    up := mem[n].back;
    if up == Null {
      StaysDirect(mem, shape, newRoot, f, r, owner, oslot);
      shape, p := shape[n := Node(r)], Entry(f);
      complete := true;
      return;
    }
    complete := false;
    if up.ShortcutPtr? {
      var s := up.addr;
      up := mem[s].back;
      var slot := mem[s].parentSlot;
      if mem[n].branch <= FAN_OUT {
        SkipGoes(mem, shape, newRoot, f, r, owner, oslot, slot);
        mem := mem[n := Rehang(mem[n], up, slot)];
        mem := Release(mem, s);
        shape, p := shape[n := Node(r)], NodePtr(n);
        if up == Null {
          newRoot := NodePtr(n);
          complete := true;
          return;
        }
        mem := SetSlot(mem, up.addr, slot, NodePtr(n));
      } else {
        StaysBehindShortcut(mem, shape, newRoot, f, r, owner, oslot);
        shape, p := shape[n := Node(r)][s := Shortcut(f.via.skip, Node(r))], Entry(f);
      }
    } else {
      StaysDirect(mem, shape, newRoot, f, r, owner, oslot);
      shape, p := shape[n := Node(r)], Entry(f);
    }
  }
}
