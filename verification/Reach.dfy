/** No cell is lost: in a finished tree every cell can be reached from the root. */
module Reach {
  import opened AssocTree
  import opened Memory
  import opened Heap

  /** Cell `a` is met when walking the tree `t` that `p` holds. */
  ghost predicate Reaches(mem: Mem, p: Ptr, t: Tree, a: Addr)
    decreases t
  {
    && IsMetaPtr(p) && p.addr in mem
    && (p.addr == a ||
        match t
        case Node(ss) =>
          && mem[p.addr].NodeCell? && |mem[p.addr].slots| == |ss|
          && exists i :: 0 <= i < |ss| && Reaches(mem, mem[p.addr].slots[i], ss[i], a)
        case Shortcut(_, c) => mem[p.addr].ShortcutCell? && Reaches(mem, mem[p.addr].next, c, a)
        case _ => false)
  }

  /** What a walk meets is finished, and beyond each cell it meets it goes on. */
  lemma {:induction false} ReachesOn(mem: Mem, shape: Shape, p: Ptr, t: Tree, a: Addr, b: Addr)
    requires Closed(mem, shape) && Mirror(p, t) && (IsMetaPtr(p) ==> p.addr in shape && shape[p.addr] == t)
    requires Reaches(mem, p, t, a)
    ensures a in shape
    ensures a in mem && b in mem && Points(mem, a, b) ==> Reaches(mem, p, t, b)
    decreases t
  {
    hide LeavesOf;
    var c := p.addr;
    assert CellOk(mem, shape, c);
    match t
    case Node(ss) =>
      if a == c {
        if a in mem && b in mem && Points(mem, a, b) {
          var i :| 0 <= i < |mem[c].slots| && IsMetaPtr(mem[c].slots[i]) && mem[c].slots[i].addr == b;
          assert SlotOk(mem, shape, mem[c].slots[i], ss[i], NodePtr(c), i);
          assert Reaches(mem, mem[c].slots[i], ss[i], b);
        }
      } else {
        var i :| 0 <= i < |ss| && Reaches(mem, mem[c].slots[i], ss[i], a);
        assert SlotOk(mem, shape, mem[c].slots[i], ss[i], NodePtr(c), i);
        ReachesOn(mem, shape, mem[c].slots[i], ss[i], a, b);
      }
    case Shortcut(_, tt) =>
      if a == c {
        assert Reaches(mem, mem[c].next, tt, mem[c].next.addr);
      } else {
        ReachesOn(mem, shape, mem[c].next, tt, a, b);
      }
    case _ =>
  }

  ghost predicate Points(mem: Mem, a: Addr, b: Addr)
    requires a in mem
  {
    match mem[a]
    case NodeCell(_, _, slots, _) => exists i :: 0 <= i < |slots| && IsMetaPtr(slots[i]) && slots[i].addr == b
    case ShortcutCell(_, _, _, next) => next == NodePtr(b)
  }

  function Size(t: Tree): nat {
    match t
    case Node(ss) => 1 + SizeAll(ss)
    case Shortcut(_, c) => 1 + Size(c)
    case _ => 0
  }

  function SizeAll(ts: seq<Tree>): nat {
    if ts == [] then 0 else SizeAll(ts[..|ts| - 1]) + Size(ts[|ts| - 1])
  }

  lemma {:induction false} SizeAt(ts: seq<Tree>, i: nat)
    requires i < |ts|
    ensures Size(ts[i]) <= SizeAll(ts)
  {
    if i < |ts| - 1 {
      SizeAt(ts[..|ts| - 1], i);
    }
  }

  /** The owner of a finished, attached cell points to it and holds a larger tree. */
  lemma OwnerLarger(mem: Mem, shape: Shape, a: Addr)
    requires Closed(mem, shape) && Attached(mem, shape) && a in shape
    requires IsMetaPtr(mem[a].back) && mem[a].back.addr in shape
    ensures var o := mem[a].back.addr;
      o in mem && Points(mem, o, a) && Size(shape[o]) > Size(shape[a])
  {
    hide LeavesOf;
    var o := mem[a].back.addr;
    assert AttachedAt(mem, a);
    assert CellOk(mem, shape, o);
    if mem[o].NodeCell? {
      var i := mem[a].parentSlot;
      assert SlotOk(mem, shape, mem[o].slots[i], shape[o].slots[i], NodePtr(o), i);
      SizeAt(shape[o].slots, i);
    }
  }

  /** A non-empty set of finished cells has one whose tree is largest. */
  lemma {:induction false} Largest(shape: Shape, s: set<Addr>) returns (m: Addr)
    requires s != {} && s <= shape.Keys
    ensures m in s && forall a :: a in s ==> Size(shape[a]) <= Size(shape[m])
    decreases s
  {
    m :| m in s;
    var rest := s - {m};
    if rest != {} {
      var k := Largest(shape, rest);
      if Size(shape[k]) > Size(shape[m]) {
        m := k;
      }
      assert forall a :: a in s ==> a == m || a in s - {m};
    } else {
      assert s == {m};
    }
  }

  /** If only the root's cell has no finished owner, every finished cell is reached. */
  lemma AllReached(mem: Mem, shape: Shape, p: Ptr, t: Tree)
    requires Closed(mem, shape) && Attached(mem, shape)
    requires IsMetaPtr(p) && Mirror(p, t) && p.addr in shape && shape[p.addr] == t
    requires forall a :: a in shape && a != p.addr ==> IsMetaPtr(mem[a].back) && mem[a].back.addr in shape
    ensures forall a :: a in shape <==> Reaches(mem, p, t, a)
  {
    forall a | Reaches(mem, p, t, a) ensures a in shape {
      ReachesOn(mem, shape, p, t, a, a);
    }
    assert CellOk(mem, shape, p.addr);
    var lost := set a | a in shape && !Reaches(mem, p, t, a);
    if lost != {} {
      var m := Largest(shape, lost);
      assert m != p.addr;
      OwnerLarger(mem, shape, m);
      var o := mem[m].back.addr;
      if Reaches(mem, p, t, o) {
        ReachesOn(mem, shape, p, t, o, m);
      }
    }
    forall a | a in shape ensures Reaches(mem, p, t, a) {
      assert a !in lost;
    }
  }
}
