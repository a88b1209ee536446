/** The cells of the new tree that are finished, described one cell at a time:
    `shape` says what tree each of them holds. Because a child's back pointer names
    its only owner, these local facts survive writes to any other cell. */
module Heap {
  import opened AssocTree
  import opened Memory

  type Shape = map<Addr, Tree>

  /** `p`, in slot `i` of the node `owner` points to, leads to the finished tree `t`. */
  ghost predicate SlotOk(mem: Mem, shape: Shape, p: Ptr, t: Tree, owner: Ptr, i: nat) {
    && Mirror(p, t)
    && (IsMetaPtr(p) ==>
      && p.addr in shape && shape[p.addr] == t
      && p.addr in mem && mem[p.addr].back == owner && mem[p.addr].parentSlot == i)
  }

  ghost predicate SlotsOk(mem: Mem, shape: Shape, ps: seq<Ptr>, ts: seq<Tree>, owner: Ptr) {
    && |ps| == |ts| == FAN_OUT
    && forall i :: 0 <= i < |ps| ==> SlotOk(mem, shape, ps[i], ts[i], owner, i)
  }

  ghost predicate CellOk(mem: Mem, shape: Shape, a: Addr)
    requires a in shape
  {
    && a in mem
    && match mem[a]
       case NodeCell(_, _, slots, branch) =>
         && shape[a].Node?
         && SlotsOk(mem, shape, slots, shape[a].slots, NodePtr(a))
         && branch == |LeavesOf(shape[a].slots)|
       case ShortcutCell(_, _, skip, next) =>
         && shape[a].Shortcut? && shape[a].skip == skip && shape[a].target.Node?
         && next.NodePtr? && next.addr in shape && shape[next.addr] == shape[a].target
         && next.addr in mem && mem[next.addr].back == ShortcutPtr(a)
  }

  ghost predicate Closed(mem: Mem, shape: Shape) {
    forall a :: a in shape ==> CellOk(mem, shape, a)
  }

  /** Cells outside the finished ones may come, go and change. */
  lemma ClosedFrame(mem: Mem, mem': Mem, shape: Shape)
    requires Closed(mem, shape)
    requires forall a :: a in shape ==> a in mem' && mem'[a] == mem[a]
    ensures Closed(mem', shape)
  {
    hide LeavesOf;
    forall a | a in shape ensures CellOk(mem', shape, a) {
      assert CellOk(mem, shape, a);
      if mem[a].NodeCell? {
        forall i | 0 <= i < FAN_OUT
          ensures SlotOk(mem', shape, mem[a].slots[i], shape[a].slots[i], NodePtr(a), i)
        {
          assert SlotOk(mem, shape, mem[a].slots[i], shape[a].slots[i], NodePtr(a), i);
        }
      }
    }
  }

  lemma SlotsFrame(mem: Mem, mem': Mem, shape: Shape, ps: seq<Ptr>, ts: seq<Tree>, owner: Ptr)
    requires SlotsOk(mem, shape, ps, ts, owner)
    requires forall a :: a in shape && a in mem ==> a in mem' && mem'[a] == mem[a]
    ensures SlotsOk(mem', shape, ps, ts, owner)
  {
    forall i | 0 <= i < FAN_OUT ensures SlotOk(mem', shape, ps[i], ts[i], owner, i) {
      assert SlotOk(mem, shape, ps[i], ts[i], owner, i);
    }
  }

  /** The owner a finished cell answers to is itself finished. */
  ghost predicate Owned(shape: Shape, back: Ptr) {
    IsMetaPtr(back) && back.addr in shape
  }

  /** A finished cell whose owner is not finished can be released. */
  lemma ClosedDrop(mem: Mem, shape: Shape, c: Addr)
    requires Closed(mem, shape) && c in shape && c in mem && !Owned(shape, mem[c].back)
    ensures Closed(mem - {c}, shape - {c})
  {
    hide LeavesOf;
    var mem', shape' := mem - {c}, shape - {c};
    forall a | a in shape' ensures CellOk(mem', shape', a) {
      assert CellOk(mem, shape, a);
      if mem[a].NodeCell? {
        forall i | 0 <= i < FAN_OUT
          ensures SlotOk(mem', shape', mem[a].slots[i], shape[a].slots[i], NodePtr(a), i)
        {
          assert SlotOk(mem, shape, mem[a].slots[i], shape[a].slots[i], NodePtr(a), i);
        }
      }
    }
  }

  /** It can also be hung elsewhere. */
  lemma ClosedMove(mem: Mem, shape: Shape, c: Addr, cell: Cell)
    requires Closed(mem, shape) && c in shape && c in mem && !Owned(shape, mem[c].back)
    requires match mem[c]
      case NodeCell(_, _, slots, branch) => cell.NodeCell? && cell.slots == slots && cell.branch == branch
      case ShortcutCell(_, _, skip, next) => cell.ShortcutCell? && cell.skip == skip && cell.next == next
    ensures Closed(mem[c := cell], shape)
  {
    hide LeavesOf;
    var mem' := mem[c := cell];
    forall a | a in shape ensures CellOk(mem', shape, a) {
      assert CellOk(mem, shape, a);
      if mem[a].NodeCell? {
        forall i | 0 <= i < FAN_OUT
          ensures SlotOk(mem', shape, mem[a].slots[i], shape[a].slots[i], NodePtr(a), i)
        {
          assert SlotOk(mem, shape, mem[a].slots[i], shape[a].slots[i], NodePtr(a), i);
        }
      }
    }
  }

  /** A node all of whose slots are finished is finished. */
  lemma ClosedNode(mem: Mem, shape: Shape, n: Addr, ts: seq<Tree>)
    requires Closed(mem, shape) && n !in shape && n in mem && mem[n].NodeCell?
    requires SlotsOk(mem, shape, mem[n].slots, ts, NodePtr(n)) && mem[n].branch == |LeavesOf(ts)|
    ensures Closed(mem, shape[n := Node(ts)])
  {
    hide LeavesOf;
    var shape' := shape[n := Node(ts)];
    forall a | a in shape' ensures CellOk(mem, shape', a) {
      if a != n {
        assert CellOk(mem, shape, a);
      }
      if mem[a].NodeCell? {
        forall i | 0 <= i < FAN_OUT
          ensures SlotOk(mem, shape', mem[a].slots[i], shape'[a].slots[i], NodePtr(a), i)
        {
          assert SlotOk(mem, shape, mem[a].slots[i], shape'[a].slots[i], NodePtr(a), i);
        }
      }
    }
  }

  /** A shortcut to a finished node is finished. */
  lemma ClosedShortcut(mem: Mem, shape: Shape, s: Addr)
    requires Closed(mem, shape) && s !in shape && s in mem && mem[s].ShortcutCell?
    requires mem[s].next.NodePtr? && mem[s].next.addr in shape && shape[mem[s].next.addr].Node?
    requires mem[s].next.addr in mem && mem[mem[s].next.addr].back == ShortcutPtr(s)
    ensures Closed(mem, shape[s := Shortcut(mem[s].skip, shape[mem[s].next.addr])])
  {
    hide LeavesOf;
    var shape' := shape[s := Shortcut(mem[s].skip, shape[mem[s].next.addr])];
    forall a | a in shape' ensures CellOk(mem, shape', a) {
      if a != s {
        assert CellOk(mem, shape, a);
        if mem[a].NodeCell? {
          forall i | 0 <= i < FAN_OUT
            ensures SlotOk(mem, shape', mem[a].slots[i], shape'[a].slots[i], NodePtr(a), i)
          {
            assert SlotOk(mem, shape, mem[a].slots[i], shape'[a].slots[i], NodePtr(a), i);
          }
        }
      }
    }
  }

  /** A finished cell holds its tree. */
  lemma {:induction false} ClosedHolds(mem: Mem, shape: Shape, p: Ptr, t: Tree, owner: Ptr, i: nat)
    requires Closed(mem, shape) && Mirror(p, t)
    requires IsMetaPtr(p) ==>
      && p.addr in shape && shape[p.addr] == t && p.addr in mem
      && mem[p.addr].back == owner && (owner.NodePtr? ==> mem[p.addr].parentSlot == i)
    ensures Holds(mem, p, t, owner, i)
    decreases t
  {
    hide LeavesOf;
    if IsMetaPtr(p) {
      var a := p.addr;
      assert CellOk(mem, shape, a);
      match t
      case Node(ss) =>
        forall j | 0 <= j < |ss| ensures Holds(mem, mem[a].slots[j], ss[j], p, j) {
          assert SlotOk(mem, shape, mem[a].slots[j], ss[j], NodePtr(a), j);
          ClosedHolds(mem, shape, mem[a].slots[j], ss[j], p, j);
        }
      case Shortcut(k, tt) =>
        ClosedHolds(mem, shape, mem[a].next, tt, p, 0);
    }
  }

  // ----- attachment: a cell's owner does point to it

  ghost predicate AttachedAt(mem: Mem, a: Addr)
    requires a in mem
  {
    match mem[a].back
    case Null => true
    case LeafPtr(_) => false
    case NodePtr(o) =>
      && o in mem && mem[o].NodeCell? && mem[a].parentSlot < |mem[o].slots|
      && IsMetaPtr(mem[o].slots[mem[a].parentSlot]) && mem[o].slots[mem[a].parentSlot].addr == a
    case ShortcutPtr(s) =>
      s in mem && mem[s].ShortcutCell? && mem[s].next == NodePtr(a)
  }

  ghost predicate Attached(mem: Mem, shape: Shape) {
    forall a :: a in shape ==> a in mem && AttachedAt(mem, a)
  }

  /** Cells stay attached while they and their owners' slots stay. */
  lemma AttachedStays(mem: Mem, mem': Mem, a: Addr)
    requires a in mem && a in mem' && mem'[a] == mem[a] && AttachedAt(mem, a)
    requires match mem[a].back
      case Null => true
      case LeafPtr(_) => true
      case NodePtr(o) =>
        o in mem && mem[o].NodeCell? && mem[a].parentSlot < |mem[o].slots| ==>
          && o in mem' && mem'[o].NodeCell? && mem[a].parentSlot < |mem'[o].slots|
          && mem'[o].slots[mem[a].parentSlot] == mem[o].slots[mem[a].parentSlot]
      case ShortcutPtr(s) =>
        s in mem && mem[s].ShortcutCell? ==> s in mem' && mem'[s].ShortcutCell? && mem'[s].next == mem[s].next
    ensures AttachedAt(mem', a)
  {
  }
}
