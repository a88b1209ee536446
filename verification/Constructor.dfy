/** The generator of array-building programs, and the helpers those programs call.
    The generator turns a node of a live array into statements for a machine with
    one variable, `node`; running them rebuilds the array elsewhere in memory. */
module Constructor {
  import opened AssocTree
  import opened Bytes
  import opened Memory
  import opened Options

  /** A node as found in a core dump. */
  datatype Dump = Dump(parentSlot: Byte, branch: nat, slots: seq<Slot>)

  datatype Slot = Vacant | Object(obj: Obj) | Child(node: Dump) | Skipping

  datatype Stmt =
    | SetTotal(total: nat)
    | MakeNode
    | SetRoot
    | SetData(parentSlot: nat, branch: nat)
    | SetNode(index: nat)
    | GetNode(index: nat)
    | GetParent
    | SetLeaf(index: nat, obj: Obj)

  // ----- the generator

  predicate Sixteen(d: Dump) {
    |d.slots| == FAN_OUT && forall i :: 0 <= i < |d.slots| && d.slots[i].Child? ==> Sixteen(d.slots[i].node)
  }

  predicate NoShortcut(d: Dump) {
    forall i :: 0 <= i < |d.slots| ==>
      match d.slots[i]
      case Skipping => false
      case Child(c) => NoShortcut(c)
      case _ => true
  }

  /** The slot numbers in `path` lead through children to a shortcut. */
  predicate ToShortcut(d: Dump, path: seq<nat>)
    decreases |path|
  {
    path != [] && path[0] < |d.slots| &&
    match d.slots[path[0]]
    case Skipping => |path| == 1
    case Child(c) => ToShortcut(c, path[1..])
    case _ => false
  }

  predicate Blocking(s: Slot) {
    s.Skipping? || (s.Child? && !NoShortcut(s.node))
  }

  lemma NoneBlocking(d: Dump)
    ensures NoShortcut(d) <==> forall i :: 0 <= i < |d.slots| ==> !Blocking(d.slots[i])
  {
    if NoShortcut(d) {
      forall i | 0 <= i < |d.slots| ensures !Blocking(d.slots[i]) {
      }
    }
    if forall i :: 0 <= i < |d.slots| ==> !Blocking(d.slots[i]) {
      forall i | 0 <= i < |d.slots|
        ensures match d.slots[i] case Skipping => false case Child(c) => NoShortcut(c) case _ => true
      {
        assert !Blocking(d.slots[i]);
      }
    }
  }

  lemma PathStarts(d: Dump, path: seq<nat>)
    ensures ToShortcut(d, path) <==>
      && path != [] && path[0] < |d.slots|
      && match d.slots[path[0]]
         case Skipping => |path| == 1
         case Child(c) => ToShortcut(c, path[1..])
         case _ => false
  {
  }

  /** A shortcut is below a node exactly if some path leads to it. */
  lemma {:induction false} ShortcutReached(d: Dump)
    ensures !NoShortcut(d) <==> exists path :: ToShortcut(d, path)
    decreases d
  {
    NoneBlocking(d);
    hide NoShortcut;
    hide ToShortcut;
    if path :| ToShortcut(d, path) {
      PathStarts(d, path);
      var s := d.slots[path[0]];
      if s.Child? {
        ShortcutReached(s.node);
      }
      assert Blocking(s);
    }
    if i :| 0 <= i < |d.slots| && Blocking(d.slots[i]) {
      var path := [i];
      if d.slots[i].Child? {
        ShortcutReached(d.slots[i].node);
        var more :| ToShortcut(d.slots[i].node, more);
        path := [i] + more;
        assert path[1..] == more;
      }
      PathStarts(d, path);
      assert ToShortcut(d, path);
    }
  }

  /** The statements for a node, and for a run of its slots. */
  function Code(d: Dump): seq<Stmt>
    decreases d, 1
  {
    [SetData(d.parentSlot, d.branch)] + SlotsCode(d, |d.slots|)
  }

  function SlotsCode(d: Dump, n: nat): seq<Stmt>
    requires n <= |d.slots|
    decreases d, 0, n
  {
    if n == 0 then []
    else SlotsCode(d, n - 1) + SlotCode(d.slots[n - 1], n - 1)
  }

  function SlotCode(s: Slot, i: nat): seq<Stmt> {
    match s
    case Child(c) => [SetNode(i), GetNode(i)] + Code(c) + [GetParent]
    case Object(o) => [SetLeaf(i, o)]
    case _ => []
  }

  /** Appends a node's statements to the list; stops at a shortcut. */
  method ConstructNode(d: Dump, stmts0: seq<Stmt>) returns (ok: bool, stmts: seq<Stmt>)
    ensures ok <==> NoShortcut(d)
    ensures !ok <==> exists path :: ToShortcut(d, path)
    ensures ok ==> stmts == stmts0 + Code(d)
    decreases d
  {
    ShortcutReached(d);
    hide ToShortcut;
    stmts := stmts0 + [SetData(d.parentSlot, d.branch)];
    ok := true;
    var i := 0;
    while i < |d.slots|
      invariant 0 <= i <= |d.slots|
      invariant ok && stmts == stmts0 + ([SetData(d.parentSlot, d.branch)] + SlotsCode(d, i))
      invariant forall k :: 0 <= k < i ==>
        match d.slots[k]
        case Skipping => false
        case Child(c) => NoShortcut(c)
        case _ => true
    {
      match d.slots[i] {
        case Skipping =>
          ok := false;
          return;
        case Child(c) =>
          stmts := stmts + [SetNode(i)];
          stmts := stmts + [GetNode(i)];
          ok, stmts := ConstructNode(c, stmts);
          if !ok {
            return;
          }
          stmts := stmts + [GetParent];
        case Object(o) =>
          stmts := stmts + [SetLeaf(i, o)];
        case Vacant =>
      }
      i := i + 1;
    }
  }

  /** Generates the whole program; stops if the root is empty, a leaf or a shortcut, or a
      shortcut is below it. */
  method ConstructArray(total: nat, root: Slot) returns (ok: bool, stmts: seq<Stmt>)
    ensures ok <==> root.Child? && NoShortcut(root.node)
    ensures !ok <==> (root.Child? ==> exists path :: ToShortcut(root.node, path))
    ensures ok ==> stmts == [SetTotal(total), MakeNode, SetRoot] + Code(root.node)
  {
    if !root.Child? {
      return false, [];
    }
    ok, stmts := ConstructNode(root.node, [SetTotal(total), MakeNode, SetRoot]);
  }

  // ----- a program, statement by statement

  lemma {:induction false} VacantRun(d: Dump, i: nat, j: nat)
    requires i <= j <= |d.slots| && forall k :: i <= k < j ==> d.slots[k].Vacant?
    ensures SlotsCode(d, j) == SlotsCode(d, i)
  {
    if i < j {
      VacantRun(d, i, j - 1);
      assert SlotCode(d.slots[j - 1], j - 1) == [];
    }
  }

  function Vacancies(n: nat): seq<Slot> {
    seq(n, (_: nat) => Vacant)
  }

  /** A node with a leaf in slot 3. */
  function Inner(): Dump {
    Dump(1, 1, Vacancies(3) + [Object(7)] + Vacancies(12))
  }

  /** A node with a leaf in slot 0 and that node in slot 1. */
  function Outer(): Dump {
    Dump(0, 2, [Object(5), Child(Inner())] + Vacancies(14))
  }

  lemma InnerCode()
    ensures Code(Inner()) == [SetData(1, 1), SetLeaf(3, 7)]
  {
    var d := Inner();
    assert d.slots[3] == Object(7);
    VacantRun(d, 0, 3);
    VacantRun(d, 4, 16);
    assert SlotsCode(d, 4) == [] + [SetLeaf(3, 7)];
  }

  lemma OneSlot(d: Dump, n: nat)
    requires n < |d.slots|
    ensures SlotsCode(d, 0) == [] && SlotsCode(d, n + 1) == SlotsCode(d, n) + SlotCode(d.slots[n], n)
    ensures Code(d) == [SetData(d.parentSlot, d.branch)] + SlotsCode(d, |d.slots|)
  {
  }

  lemma OuterCode()
    ensures Code(Outer()) == [SetData(0, 2)] + [SetLeaf(0, 5)] + [SetNode(1), GetNode(1)] + Code(Inner()) + [GetParent]
  {
    var d := Outer();
    VacantRun(d, 2, 16);
    OneSlot(d, 0);
    OneSlot(d, 1);
    hide Inner;
    var child := SlotCode(d.slots[1], 1);
    assert child == [SetNode(1), GetNode(1)] + Code(Inner()) + [GetParent];
    assert SlotCode(d.slots[0], 0) == [SetLeaf(0, 5)];
    assert |d.slots| == 16 && d.parentSlot == 0 && d.branch == 2;
    hide Code;
    hide SlotsCode;
    hide SlotCode;
    hide Outer;
    Woven([SetData(0, 2)], [SetLeaf(0, 5)], [SetNode(1), GetNode(1)], Code(Inner()), [GetParent]);
  }

  lemma Woven(a: seq<Stmt>, b: seq<Stmt>, c: seq<Stmt>, d: seq<Stmt>, e: seq<Stmt>)
    ensures a + ([] + b + (c + d + e)) == a + b + c + d + e
  {
  }

  /** The program for these two nodes, in order. */
  method ConstructSample() returns (ok: bool, stmts: seq<Stmt>)
    ensures ok
    ensures stmts == [SetTotal(2), MakeNode, SetRoot, SetData(0, 2), SetLeaf(0, 5), SetNode(1), GetNode(1),
                      SetData(1, 1), SetLeaf(3, 7), GetParent]
  {
    InnerCode();
    OuterCode();
    assert NoShortcut(Inner());
    assert NoShortcut(Outer());
    hide Code;
    ok, stmts := ConstructArray(2, Child(Outer()));
  }

  // ----- the helpers

  /** An allocator: given the cells in use it names another. */
  ghost predicate Allocates(alloc: Mem -> Addr) {
    forall m: Mem :: alloc(m) !in m
  }

  datatype State = State(mem: Mem, node: Addr, root: Ptr, total: nat)

  function NewNode(): (c: Cell)
    ensures c.NodeCell? && |c.slots| == FAN_OUT && forall i :: 0 <= i < FAN_OUT ==> c.slots[i] == Null
  {
    NodeCell(Null, 0, seq(FAN_OUT, (_: nat) => Null), 0)
  }

  /** The current node, if the variable points to one. */
  predicate HasNode(st: State) {
    st.node in st.mem && st.mem[st.node].NodeCell? && |st.mem[st.node].slots| == FAN_OUT
  }

  function PutSlot(c: Cell, i: nat, p: Ptr): Cell
    requires c.NodeCell? && i < |c.slots|
  {
    c.(slots := c.slots[i := p])
  }

  function Exec(s: Stmt, st: State, alloc: Mem -> Addr): Option<State> {
    match s
    case SetTotal(n) => Some(st.(total := n))
    case MakeNode => var a := alloc(st.mem); Some(st.(mem := st.mem[a := NewNode()], node := a))
    case SetRoot => Some(st.(root := NodePtr(st.node)))
    case SetData(ps, nb) =>
      if !HasNode(st) then None
      else Some(st.(mem := st.mem[st.node := st.mem[st.node].(parentSlot := ps % 256, branch := nb)]))
    case SetNode(i) =>
      if !HasNode(st) || i >= FAN_OUT then None
      else
        var a := alloc(st.mem);
        var mem := st.mem[st.node := PutSlot(st.mem[st.node], i, NodePtr(a))];
        Some(st.(mem := mem[a := Rehang(NewNode(), NodePtr(st.node), 0)]))
    case GetNode(i) =>
      if !HasNode(st) || i >= FAN_OUT || !st.mem[st.node].slots[i].NodePtr? then None
      else Some(st.(node := st.mem[st.node].slots[i].addr))
    case GetParent =>
      if !HasNode(st) || !st.mem[st.node].back.NodePtr? then None
      else Some(st.(node := st.mem[st.node].back.addr))
    case SetLeaf(i, o) =>
      if !HasNode(st) || i >= FAN_OUT then None
      else Some(st.(mem := st.mem[st.node := PutSlot(st.mem[st.node], i, LeafPtr(o))]))
  }

  function Run(code: seq<Stmt>, st: State, alloc: Mem -> Addr): Option<State> {
    if code == [] then Some(st)
    else match Exec(code[0], st, alloc)
      case None => None
      case Some(next) => Run(code[1..], next, alloc)
  }

  lemma {:induction false} RunAppend(a: seq<Stmt>, b: seq<Stmt>, st: State, alloc: Mem -> Addr)
    ensures Run(a + b, st, alloc) ==
      match Run(a, st, alloc)
      case None => None
      case Some(mid) => Run(b, mid, alloc)
  {
    hide Exec;
    if a == [] {
      assert a + b == b;
    } else {
      assert (a + b)[1..] == a[1..] + b;
      match Exec(a[0], st, alloc)
      case None =>
      case Some(next) => RunAppend(a[1..], b, next, alloc);
    }
  }

  lemma RunOne(s: Stmt, st: State, alloc: Mem -> Addr)
    ensures Run([s], st, alloc) == Exec(s, st, alloc)
  {
    hide Exec;
    assert [s][1..] == [];
  }

  // ----- what a program builds

  /** Node `a`, owned by `back`, and everything below it copies the dump; all its
      cells are among `cells`. */
  ghost predicate Copies(mem: Mem, cells: set<Addr>, a: Addr, back: Ptr, d: Dump)
    decreases d, 1
  {
    && a in cells && a in mem
    && mem[a] == NodeCell(back, d.parentSlot, SlotsAt(mem, a), d.branch)
    && |SlotsAt(mem, a)| == |d.slots|
    && forall i :: 0 <= i < |d.slots| ==> CopiesSlot(mem, cells, a, SlotsAt(mem, a)[i], d.slots[i])
  }

  ghost function SlotsAt(mem: Mem, a: Addr): seq<Ptr>
    requires a in mem
  {
    if mem[a].NodeCell? then mem[a].slots else []
  }

  ghost predicate CopiesSlot(mem: Mem, cells: set<Addr>, a: Addr, p: Ptr, s: Slot)
    decreases s, 0
  {
    match s
    case Vacant => p == Null
    case Object(o) => p == LeafPtr(o)
    case Child(c) => p.NodePtr? && Copies(mem, cells, p.addr, NodePtr(a), c)
    case Skipping => false
  }

  lemma {:induction false} CopiesFrame(mem: Mem, cells: set<Addr>, a: Addr, back: Ptr, d: Dump, mem': Mem,
                                       cells': set<Addr>)
    requires Copies(mem, cells, a, back, d) && cells <= cells'
    requires forall x :: x in cells && x in mem ==> x in mem' && mem'[x] == mem[x]
    ensures Copies(mem', cells', a, back, d)
    decreases d
  {
    forall i | 0 <= i < |d.slots|
      ensures CopiesSlot(mem', cells', a, SlotsAt(mem', a)[i], d.slots[i])
    {
      assert CopiesSlot(mem, cells, a, SlotsAt(mem, a)[i], d.slots[i]);
      if d.slots[i].Child? {
        CopiesFrame(mem, cells, SlotsAt(mem, a)[i].addr, NodePtr(a), d.slots[i].node, mem', cells');
      }
    }
  }

  /** The number of nodes below a node. */
  function Below(d: Dump): nat
    decreases d, 1
  {
    BelowSlots(d, |d.slots|)
  }

  function BelowSlots(d: Dump, n: nat): nat
    requires n <= |d.slots|
    decreases d, 0, n
  {
    if n == 0 then 0
    else BelowSlots(d, n - 1) + match d.slots[n - 1] case Child(c) => 1 + Below(c) case _ => 0
  }

  ghost predicate BlankNode(st: State) {
    HasNode(st) && forall i :: 0 <= i < FAN_OUT ==> st.mem[st.node].slots[i] == Null
  }

  function Added(st: State, st': State): set<Addr> {
    st'.mem.Keys - st.mem.Keys
  }

  /** Nothing but the current node changed, new cells aside. */
  ghost predicate Grown(st: State, st': State) {
    && st'.node == st.node && st'.root == st.root && st'.total == st.total
    && forall x :: x in st.mem ==> x in st'.mem && (x != st.node ==> st'.mem[x] == st.mem[x])
  }

  /** The first `n` slots are built, the others are still empty. */
  ghost predicate Partly(st: State, st': State, d: Dump, n: nat)
    requires n <= |d.slots| && n <= FAN_OUT
  {
    && Grown(st, st') && HasNode(st) && HasNode(st')
    && st'.mem[st.node] == st.mem[st.node].(slots := st'.mem[st.node].slots)
    && (forall k :: 0 <= k < n ==> CopiesSlot(st'.mem, Added(st, st'), st.node, st'.mem[st.node].slots[k], d.slots[k]))
    && (forall k :: n <= k < FAN_OUT ==> st'.mem[st.node].slots[k] == Null)
    && |st'.mem| == |st.mem| + BelowSlots(d, n)
  }

  /** The whole node is built, and the cursor is back where it was. */
  ghost predicate Built(st: State, st': State, d: Dump) {
    && Grown(st, st') && HasNode(st)
    && Copies(st'.mem, Added(st, st') + {st.node}, st.node, st.mem[st.node].back, d)
    && |st'.mem| == |st.mem| + Below(d)
  }

  lemma {:induction false} RunNode(d: Dump, st: State, alloc: Mem -> Addr)
    requires Sixteen(d) && NoShortcut(d) && Allocates(alloc) && BlankNode(st)
    ensures Run(Code(d), st, alloc).Some? && Built(st, Run(Code(d), st, alloc).value, d)
    decreases d, 1
  {
    hide Run;
    hide Copies;
    hide CopiesSlot;
    var first := SetData(d.parentSlot, d.branch);
    var st1 := Exec(first, st, alloc).value;
    RunOne(first, st, alloc);
    RunAppend([first], SlotsCode(d, |d.slots|), st, alloc);
    RunSlots(d, |d.slots|, st1, alloc);
    var st2 := Run(SlotsCode(d, |d.slots|), st1, alloc).value;
    assert st1.mem.Keys == st.mem.Keys;
    hide Exec;
    PartlyBuilt(st, st1, st2, d);
  }

  lemma PartlyBuilt(st: State, st1: State, st2: State, d: Dump)
    requires Sixteen(d) && HasNode(st) && Grown(st, st1) && st1.mem.Keys == st.mem.Keys
    requires st1.mem[st.node] == st.mem[st.node].(parentSlot := d.parentSlot, branch := d.branch)
    requires Partly(st1, st2, d, |d.slots|)
    ensures Built(st, st2, d)
  {
    var cells := Added(st, st2) + {st.node};
    assert |st.mem.Keys| == |st1.mem.Keys|;
    forall i | 0 <= i < |d.slots|
      ensures CopiesSlot(st2.mem, cells, st.node, SlotsAt(st2.mem, st.node)[i], d.slots[i])
    {
      assert CopiesSlot(st2.mem, Added(st1, st2), st.node, st2.mem[st.node].slots[i], d.slots[i]);
      if d.slots[i].Child? {
        CopiesFrame(st2.mem, Added(st1, st2), st2.mem[st.node].slots[i].addr, NodePtr(st.node), d.slots[i].node,
                    st2.mem, cells);
      }
    }
  }

  lemma {:induction false} RunSlots(d: Dump, n: nat, st: State, alloc: Mem -> Addr)
    requires Sixteen(d) && NoShortcut(d) && Allocates(alloc) && BlankNode(st) && n <= |d.slots|
    ensures Run(SlotsCode(d, n), st, alloc).Some? && Partly(st, Run(SlotsCode(d, n), st, alloc).value, d, n)
    decreases d, 0, n
  {
    hide Exec;
    hide Copies;
    if n > 0 {
      RunSlots(d, n - 1, st, alloc);
      var mid := Run(SlotsCode(d, n - 1), st, alloc).value;
      RunAppend(SlotsCode(d, n - 1), SlotCode(d.slots[n - 1], n - 1), st, alloc);
      hide Run;
      match d.slots[n - 1]
      case Child(c) =>
        RunChild(d, n, c, st, mid, alloc);
      case Object(o) =>
        RunObject(d, n, o, st, mid, alloc);
      case Vacant =>
        assert Run([], mid, alloc) == Some(mid) by { RunNothing(mid, alloc); }
    }
  }

  lemma RunNothing(st: State, alloc: Mem -> Addr)
    ensures Run([], st, alloc) == Some(st)
  {
  }

  lemma RunObject(d: Dump, n: nat, o: Obj, st: State, mid: State, alloc: Mem -> Addr)
    requires 0 < n <= |d.slots| == FAN_OUT && d.slots[n - 1] == Object(o) && Partly(st, mid, d, n - 1)
    ensures var code := SlotCode(d.slots[n - 1], n - 1);
      Run(code, mid, alloc).Some? && Partly(st, Run(code, mid, alloc).value, d, n)
  {
    hide Run;
    hide Copies;
    RunOne(SetLeaf(n - 1, o), mid, alloc);
    var st' := Exec(SetLeaf(n - 1, o), mid, alloc).value;
    assert st'.mem.Keys == mid.mem.Keys;
    assert |st'.mem.Keys| == |mid.mem.Keys|;
    SlotsKept(st, mid, st', d, n - 1);
  }

  /** Slots already built stay built while the node's later slots and new cells change. */
  lemma SlotsKept(st: State, mid: State, st': State, d: Dump, n: nat)
    requires n <= |d.slots| && n <= FAN_OUT && Partly(st, mid, d, n) && st.mem.Keys <= mid.mem.Keys
    requires forall x :: x in mid.mem && x != st.node ==> x in st'.mem && st'.mem[x] == mid.mem[x]
    requires st.node in st'.mem && st'.mem[st.node].NodeCell? && |st'.mem[st.node].slots| == FAN_OUT
    requires forall k :: 0 <= k < n ==> st'.mem[st.node].slots[k] == mid.mem[st.node].slots[k]
    ensures forall k :: 0 <= k < n ==>
      CopiesSlot(st'.mem, Added(st, st'), st.node, st'.mem[st.node].slots[k], d.slots[k])
  {
    forall k | 0 <= k < n
      ensures CopiesSlot(st'.mem, Added(st, st'), st.node, st'.mem[st.node].slots[k], d.slots[k])
    {
      assert CopiesSlot(mid.mem, Added(st, mid), st.node, mid.mem[st.node].slots[k], d.slots[k]);
      if d.slots[k].Child? {
        CopiesFrame(mid.mem, Added(st, mid), mid.mem[st.node].slots[k].addr, NodePtr(st.node), d.slots[k].node,
                    st'.mem, Added(st, st'));
      }
    }
  }

  lemma RunChild(d: Dump, n: nat, c: Dump, st: State, mid: State, alloc: Mem -> Addr)
    requires 0 < n <= |d.slots| == FAN_OUT && d.slots[n - 1] == Child(c) && Partly(st, mid, d, n - 1)
    requires Sixteen(c) && NoShortcut(c) && Allocates(alloc)
    ensures var code := SlotCode(d.slots[n - 1], n - 1);
      Run(code, mid, alloc).Some? && Partly(st, Run(code, mid, alloc).value, d, n)
    decreases c, 2
  {
    hide Copies;
    hide CopiesSlot;
    var i := n - 1;
    var b := alloc(mid.mem);
    assert b !in mid.mem;
    // set_node; node = get_node
    var st1 := Exec(SetNode(i), mid, alloc).value;
    var st2 := Exec(GetNode(i), st1, alloc).value;
    RunTwo(SetNode(i), GetNode(i), mid, alloc);
    RunNode(c, st2, alloc);
    var st3 := Run(Code(c), st2, alloc).value;
    BackUp(st2, st3, c, mid.node);
    var st4 := Exec(GetParent, st3, alloc).value;
    RunOne(GetParent, st3, alloc);
    RunAppend([SetNode(i), GetNode(i)] + Code(c), [GetParent], mid, alloc);
    RunAppend([SetNode(i), GetNode(i)], Code(c), mid, alloc);
    hide Run;
    hide Exec;
    assert st1.mem.Keys == mid.mem.Keys + {b};
    assert |st1.mem.Keys| == |mid.mem.Keys| + 1;
    ChildPartly(d, n, c, st, mid, b, st2, st4);
  }

  lemma RunTwo(s1: Stmt, s2: Stmt, st: State, alloc: Mem -> Addr)
    requires Exec(s1, st, alloc).Some?
    ensures Run([s1, s2], st, alloc) == Exec(s2, Exec(s1, st, alloc).value, alloc)
  {
    hide Exec;
    assert [s1, s2][1..] == [s2];
    RunOne(s2, Exec(s1, st, alloc).value, alloc);
  }

  /** A built child points back to its parent. */
  lemma BackUp(st: State, st': State, c: Dump, parent: Addr)
    requires Built(st, st', c) && Sixteen(c) && st.mem[st.node].back == NodePtr(parent)
    ensures HasNode(st') && st'.mem[st'.node].back == NodePtr(parent)
  {
  }

  /** What building a child leaves as it was. */
  lemma ChildKeeps(d: Dump, n: nat, c: Dump, st: State, mid: State, b: Addr, st2: State, st4: State)
    requires 0 < n <= |d.slots| == FAN_OUT && Partly(st, mid, d, n - 1)
    requires b !in mid.mem && st2.node == b && st2.mem.Keys == mid.mem.Keys + {b}
    requires forall x :: x in mid.mem && x != st.node ==> st2.mem[x] == mid.mem[x]
    requires st2.mem[st.node] == PutSlot(mid.mem[st.node], n - 1, NodePtr(b))
    requires Built(st2, st4.(node := b), c) && st4.node == st.node && st4.root == st.root && st4.total == st.total
    ensures Grown(st, st4) && HasNode(st4) && st.mem.Keys <= mid.mem.Keys
    ensures forall x :: x in mid.mem && x != st.node ==> x in st4.mem && st4.mem[x] == mid.mem[x]
    ensures st4.mem[st.node] == PutSlot(mid.mem[st.node], n - 1, NodePtr(b))
  {
    hide Copies;
    hide CopiesSlot;
    hide Below;
    hide BelowSlots;
    hide PutSlot;
    assert HasNode(st) && HasNode(mid);
    assert st.node in st2.mem && st4.mem[st.node] == st2.mem[st.node];
    PutSlotNode(mid.mem[st.node], n - 1, NodePtr(b));
  }

  lemma PutSlotNode(c: Cell, i: nat, p: Ptr)
    requires c.NodeCell? && i < |c.slots|
    ensures PutSlot(c, i, p).NodeCell? && |PutSlot(c, i, p).slots| == |c.slots|
  {
  }

  /** The child is a copy, made of cells that are new. */
  lemma ChildCopied(c: Dump, st: State, mid: State, b: Addr, st2: State, st4: State)
    requires st.mem.Keys <= mid.mem.Keys && b !in mid.mem && st2.mem.Keys == mid.mem.Keys + {b}
    requires st2.node == b && b in st2.mem && st2.mem[b].NodeCell? && st2.mem[b].back == NodePtr(st.node)
    requires Built(st2, st4.(node := b), c)
    ensures CopiesSlot(st4.mem, Added(st, st4), st.node, NodePtr(b), Child(c))
  {
    hide Copies;
    hide Below;
    var made := Added(st2, st4) + {b};
    assert made <= Added(st, st4);
    CopiesFrame(st4.mem, made, b, NodePtr(st.node), c, st4.mem, Added(st, st4));
  }

  lemma ChildPartly(d: Dump, n: nat, c: Dump, st: State, mid: State, b: Addr, st2: State, st4: State)
    requires 0 < n <= |d.slots| == FAN_OUT && d.slots[n - 1] == Child(c) && Partly(st, mid, d, n - 1)
    requires b !in mid.mem && st2.node == b && HasNode(st2) && st2.mem[b].back == NodePtr(st.node)
    requires st2.mem.Keys == mid.mem.Keys + {b} && |st2.mem| == |mid.mem| + 1
    requires forall x :: x in mid.mem && x != st.node ==> st2.mem[x] == mid.mem[x]
    requires st2.mem[st.node] == PutSlot(mid.mem[st.node], n - 1, NodePtr(b))
    requires Built(st2, st4.(node := b), c) && st4.node == st.node && st4.root == st.root && st4.total == st.total
    ensures Partly(st, st4, d, n)
  {
    hide Copies;
    ChildKeeps(d, n, c, st, mid, b, st2, st4);
    SlotsKept(st, mid, st4, d, n - 1);
    ChildCopied(c, st, mid, b, st2, st4);
    hide CopiesSlot;
  }

  // ----- the whole program

  /** The generated program, run from any state, rebuilds the array: the root leads to
      a copy of the dump, made of new cells only, one for each node; the total is the
      dump's; cells in use before are untouched; and the variable is back at the root. */
  lemma ProgramRebuilds(total: nat, d: Dump, st: State, alloc: Mem -> Addr)
    requires Sixteen(d) && NoShortcut(d) && Allocates(alloc)
    ensures var code := [SetTotal(total), MakeNode, SetRoot] + Code(d);
      && Run(code, st, alloc).Some?
      && var st' := Run(code, st, alloc).value;
      && st'.total == total && st'.root == NodePtr(st'.node) && st'.node !in st.mem
      && Copies(st'.mem, Added(st, st'), st'.node, Null, d)
      && |Added(st, st')| == 1 + Below(d)
      && forall x :: x in st.mem ==> x in st'.mem && st'.mem[x] == st.mem[x]
  {
    var head := [SetTotal(total), MakeNode, SetRoot];
    RunHead(total, st, alloc);
    RunAppend(head, Code(d), st, alloc);
    hide Copies;
    hide Run;
    hide Exec;
    var st3 := Started(total, st, alloc);
    RunNode(d, st3, alloc);
    HeadBuilt(total, d, st, alloc, Run(Code(d), st3, alloc).value);
  }

  /** The state after the first three statements. */
  function Started(total: nat, st: State, alloc: Mem -> Addr): State {
    var a := alloc(st.mem);
    State(st.mem[a := NewNode()], a, NodePtr(a), total)
  }

  lemma RunHead(total: nat, st: State, alloc: Mem -> Addr)
    requires Allocates(alloc)
    ensures Run([SetTotal(total), MakeNode, SetRoot], st, alloc) == Some(Started(total, st, alloc))
    ensures BlankNode(Started(total, st, alloc))
  {
    var st1 := Exec(SetTotal(total), st, alloc).value;
    var st2 := Exec(MakeNode, st1, alloc).value;
    assert Exec(SetRoot, st2, alloc) == Some(Started(total, st, alloc));
    RunTwo(SetTotal(total), MakeNode, st, alloc);
    RunOne(SetRoot, st2, alloc);
    hide Exec;
    assert [SetTotal(total), MakeNode, SetRoot] == [SetTotal(total), MakeNode] + [SetRoot];
    RunAppend([SetTotal(total), MakeNode], [SetRoot], st, alloc);
  }

  lemma HeadBuilt(total: nat, d: Dump, st: State, alloc: Mem -> Addr, st': State)
    requires Allocates(alloc) && Built(Started(total, st, alloc), st', d)
    ensures st'.total == total && st'.root == NodePtr(st'.node) && st'.node !in st.mem
    ensures Copies(st'.mem, Added(st, st'), st'.node, Null, d) && |Added(st, st')| == 1 + Below(d)
    ensures forall x :: x in st.mem ==> x in st'.mem && st'.mem[x] == st.mem[x]
  {
    var st3 := Started(total, st, alloc);
    var a := alloc(st.mem);
    assert a !in st.mem && st3.node == a && st3.mem[a] == NewNode();
    hide Allocates;
    hide Copies;
    hide NewNode;
    hide Below;
    NewKeys(st.mem.Keys, a, st3.mem.Keys, st'.mem.Keys);
  }

  lemma NewKeys(before: set<Addr>, a: Addr, started: set<Addr>, after: set<Addr>)
    requires a !in before && started == before + {a} && started <= after
    ensures after - started + {a} == after - before
    ensures |after - before| == |after| - |started| + 1
  {
    assert after == before + (after - before);
    assert |started| == |before| + 1;
  }

  /** The tree a dump shows, given that no slot is a shortcut. */
  function TreeOf(d: Dump): Tree
    decreases d, 1
  {
    Node(seq(|d.slots|, (i: nat) requires i < |d.slots| => TreeOfSlot(d.slots[i])))
  }

  function TreeOfSlot(s: Slot): Tree
    decreases s, 0
  {
    match s
    case Object(o) => Leaf(o)
    case Child(c) => TreeOf(c)
    case _ => Empty
  }

  /** Each child's parent slot is the slot it is in. */
  predicate SlotsNumbered(d: Dump) {
    forall i :: 0 <= i < |d.slots| && d.slots[i].Child? ==>
      d.slots[i].node.parentSlot == i && SlotsNumbered(d.slots[i].node)
  }

  /** So a dump with consistent parent slots is rebuilt as a tree fit for collection:
      forward pointers, back pointers and parent slots agree. */
  lemma {:induction false} CopyHolds(mem: Mem, cells: set<Addr>, a: Addr, back: Ptr, d: Dump, slot: nat)
    requires Copies(mem, cells, a, back, d) && SlotsNumbered(d) && (back.NodePtr? ==> d.parentSlot == slot)
    ensures Holds(mem, NodePtr(a), TreeOf(d), back, slot)
    decreases d
  {
    var ss := TreeOf(d).slots;
    forall i | 0 <= i < |ss| ensures Holds(mem, mem[a].slots[i], ss[i], NodePtr(a), i) {
      assert CopiesSlot(mem, cells, a, SlotsAt(mem, a)[i], d.slots[i]);
      assert ss[i] == TreeOfSlot(d.slots[i]);
      if d.slots[i].Child? {
        CopyHolds(mem, cells, mem[a].slots[i].addr, NodePtr(a), d.slots[i].node, i);
      }
    }
  }
}
