/** The memory an associative array lives in: tagged pointers to node and shortcut
    cells, and what it means for a pointer to hold a tree. */
module Memory {
  import opened AssocTree

  type Addr = nat

  /** A pointer with its two tag bits decoded. */
  datatype Ptr = Null | LeafPtr(obj: Obj) | NodePtr(addr: Addr) | ShortcutPtr(addr: Addr)

  predicate IsMetaPtr(p: Ptr) {
    p.NodePtr? || p.ShortcutPtr?
  }

  datatype Cell =
    | NodeCell(back: Ptr, parentSlot: nat, slots: seq<Ptr>, branch: nat)
    | ShortcutCell(back: Ptr, parentSlot: nat, skip: Skip, next: Ptr)

  /** The cell with another owner. */
  function Rehang(c: Cell, owner: Ptr, slot: nat): Cell {
    match c
    case NodeCell(_, _, slots, branch) => NodeCell(owner, slot, slots, branch)
    case ShortcutCell(_, _, skip, next) => ShortcutCell(owner, slot, skip, next)
  }

  type Mem = map<Addr, Cell>

  /** Releases a cell that is in use. */
  function Release(mem: Mem, a: Addr): Mem
    requires a in mem
  {
    mem - {a}
  }

  /** `p` holds tree `t` in slot `slot` of the owner `back`: forward pointers spell
      the tree, and back pointers and parent slots answer them. */
  ghost predicate Holds(mem: Mem, p: Ptr, t: Tree, back: Ptr, slot: nat)
    decreases t
  {
    match t
    case Empty => p.Null?
    case Leaf(o) => p == LeafPtr(o)
    case Node(ss) =>
      && p.NodePtr? && p.addr in mem
      && var c := mem[p.addr];
      && c.NodeCell? && c.back == back && (back.NodePtr? ==> c.parentSlot == slot)
      && |c.slots| == |ss|
      && forall i :: 0 <= i < |ss| ==> Holds(mem, c.slots[i], ss[i], p, i)
    case Shortcut(k, tt) =>
      && p.ShortcutPtr? && p.addr in mem
      && var c := mem[p.addr];
      && c.ShortcutCell? && c.back == back && (back.NodePtr? ==> c.parentSlot == slot)
      && c.skip == k && tt.Node? && Holds(mem, c.next, tt, p, 0)
  }

  /** A pointer and the tree it holds, seen from the pointer alone. */
  predicate Mirror(p: Ptr, t: Tree) {
    match p
    case Null => t.Empty?
    case LeafPtr(o) => t == Leaf(o)
    case NodePtr(_) => t.Node?
    case ShortcutPtr(_) => t.Shortcut?
  }

  ghost predicate Mirrors(ps: seq<Ptr>, ts: seq<Tree>) {
    |ps| == |ts| && forall i :: 0 <= i < |ps| ==> Mirror(ps[i], ts[i])
  }
}
