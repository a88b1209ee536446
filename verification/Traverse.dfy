/** The state of a collection under way. The code keeps no stack: it finds its way
    back through back pointers and parent slots. The ghost stack here lists the
    nodes it is inside of, outermost first, and the invariant says what the two
    trees look like for each of them. */
module Traverse {
  import opened AssocTree
  import opened Collect
  import opened Memory
  import opened Heap

  /** What a collection starts from. */
  datatype Job = Job(mem: Mem, root: Ptr, tree: Tree, iter: Iterator)

  /** How a node was entered: directly, or through a shortcut and its copy. */
  datatype Via = Direct | Through(srcSkip: Addr, skip: Skip, dstSkip: Addr)

  /** A node `src` of the old tree that holds the trees `ss`, its copy `dst`, the
      slot reached, and what the iterator saw before the node. */
  datatype Frame = Frame(src: Addr, ss: seq<Tree>, seen: seq<Obj>, via: Via, dst: Addr, slot: nat)

  function Whole(f: Frame): Tree {
    match f.via
    case Direct => Node(f.ss)
    case Through(_, k, _) => Shortcut(k, Node(f.ss))
  }

  function Entry(f: Frame): Ptr {
    match f.via
    case Direct => NodePtr(f.dst)
    case Through(_, _, s) => ShortcutPtr(s)
  }

  /** The cells of the new tree that belong to the frame. */
  function Own(f: Frame): set<Addr> {
    match f.via
    case Direct => {f.dst}
    case Through(_, _, s) => {f.dst, s}
  }

  function SeenBefore(f: Frame, i: nat): seq<Obj>
    requires i <= |f.ss|
  {
    f.seen + LeavesOf(f.ss[..i])
  }

  lemma FilterAllWellFormed(ss: seq<Tree>, iter: Iterator, h: seq<Obj>)
    requires AllWellFormed(ss)
    ensures AllWellFormed(FilterAll(ss, iter, h))
  {
    forall i | 0 <= i < |ss| ensures WellFormed(FilterAll(ss, iter, h)[i]) {
      FilterAllAt(ss, iter, h, i);
      FilterWellFormed(ss[i], iter, h + LeavesOf(ss[..i]));
    }
  }

  /** The filtered slots of the frame's node. */
  function Sifted(g: Job, f: Frame): (r: seq<Tree>)
    requires AllWellFormed(f.ss)
    ensures AllWellFormed(r)
  {
    FilterAllWellFormed(f.ss, g.iter, f.seen);
    FilterAll(f.ss, g.iter, f.seen)
  }

  /** What the slots of the copy are to hold once all of them are done. */
  function Goal(g: Job, f: Frame): (r: seq<Tree>)
    requires AllWellFormed(f.ss)
    ensures |r| == FAN_OUT
  {
    CompactAll(Sifted(g, f))
  }

  // ----- one frame

  ghost predicate SrcOk(g: Job, f: Frame) {
    && AllWellFormed(f.ss) && f.src in g.mem && g.mem[f.src].NodeCell?
    && |g.mem[f.src].slots| == FAN_OUT
    && forall i :: 0 <= i < FAN_OUT ==> Holds(g.mem, g.mem[f.src].slots[i], f.ss[i], NodePtr(f.src), i)
  }

  /** Cell `c` hangs in slot `slot` of `owner`. */
  predicate Hangs(c: Cell, owner: Ptr, slot: nat) {
    c.back == owner && (owner.NodePtr? ==> c.parentSlot == slot)
  }

  ghost predicate SrcLink(mem: Mem, f: Frame, owner: Ptr, slot: nat) {
    && f.src in mem
    && match f.via
       case Direct => Hangs(mem[f.src], owner, slot)
       case Through(s, k, _) =>
         && mem[f.src].back == ShortcutPtr(s)
         && s in mem && mem[s].ShortcutCell? && Hangs(mem[s], owner, slot) && mem[s].skip == k
  }

  ghost predicate DstLink(mem: Mem, f: Frame, owner: Ptr, slot: nat) {
    && f.dst in mem && mem[f.dst].NodeCell? && |mem[f.dst].slots| == FAN_OUT
    && match f.via
       case Direct => Hangs(mem[f.dst], owner, slot)
       case Through(_, k, s) =>
         && mem[f.dst].back == ShortcutPtr(s)
         && s in mem && mem[s].ShortcutCell? && Hangs(mem[s], owner, slot)
         && mem[s].skip == k && mem[s].next == NodePtr(f.dst)
  }

  /** The copy's slots before the frame's slot are done; those after it are empty. */
  ghost predicate Filled(g: Job, mem: Mem, shape: Shape, f: Frame) {
    && AllWellFormed(f.ss) && f.slot <= FAN_OUT
    && f.dst in mem && mem[f.dst].NodeCell? && |mem[f.dst].slots| == FAN_OUT
    && (forall i :: 0 <= i < f.slot ==> SlotOk(mem, shape, mem[f.dst].slots[i], Goal(g, f)[i], NodePtr(f.dst), i))
    && (forall i :: f.slot < i < FAN_OUT ==> mem[f.dst].slots[i] == Null)
  }

  // ----- the stack

  type Stack = seq<Frame>

  function SrcOwner(stack: Stack, k: nat): Ptr
    requires k < |stack|
  {
    if k == 0 then Null else NodePtr(stack[k - 1].src)
  }

  function DstOwner(stack: Stack, k: nat): Ptr
    requires k < |stack|
  {
    if k == 0 then Null else NodePtr(stack[k - 1].dst)
  }

  function OwnerSlot(stack: Stack, k: nat): nat
    requires k < |stack|
  {
    if k == 0 then 0 else stack[k - 1].slot
  }

  /** Frame `k` is what the slot of frame `k - 1`, or the root, leads to. */
  ghost predicate Nested(g: Job, stack: Stack, k: nat)
    requires k < |stack|
  {
    if k == 0 then Whole(stack[k]) == g.tree && stack[k].seen == []
    else
      var f := stack[k - 1];
      f.slot < |f.ss| && f.ss[f.slot] == Whole(stack[k]) && stack[k].seen == SeenBefore(f, f.slot)
  }

  ghost predicate Hung(mem: Mem, stack: Stack, k: nat, newRoot: Ptr)
    requires k < |stack|
  {
    if k == 0 then newRoot == Entry(stack[0])
    else
      var f := stack[k - 1];
      && f.dst in mem && mem[f.dst].NodeCell? && f.slot < |mem[f.dst].slots|
      && mem[f.dst].slots[f.slot] == Entry(stack[k])
  }

  ghost predicate FrameOk(g: Job, mem: Mem, shape: Shape, stack: Stack, k: nat, newRoot: Ptr)
    requires k < |stack|
  {
    && SrcOk(g, stack[k]) && SrcLink(g.mem, stack[k], SrcOwner(stack, k), OwnerSlot(stack, k))
    && DstLink(mem, stack[k], DstOwner(stack, k), OwnerSlot(stack, k))
    && Nested(g, stack, k) && Filled(g, mem, shape, stack[k])
    && Hung(mem, stack, k, newRoot)
  }

  function OpenCells(stack: Stack): set<Addr> {
    if stack == [] then {} else OpenCells(stack[..|stack| - 1]) + Own(stack[|stack| - 1])
  }

  /** Every cell is an old one, a finished one, or one of an open frame. */
  ghost predicate Partition(g: Job, mem: Mem, shape: Shape, stack: Stack) {
    && mem.Keys == g.mem.Keys + shape.Keys + OpenCells(stack)
    && g.mem.Keys !! shape.Keys
    && (forall k :: 0 <= k < |stack| ==> Own(stack[k]) !! g.mem.Keys && Own(stack[k]) !! shape.Keys)
    && Apart(stack)
  }

  ghost predicate Apart(stack: Stack) {
    forall j, k :: 0 <= j < k < |stack| ==> Own(stack[j]) !! Own(stack[k])
  }

  ghost predicate Untouched(g: Job, mem: Mem) {
    forall a :: a in g.mem ==> a in mem && mem[a] == g.mem[a]
  }

  /** Every finished cell is owned by a cell of the new tree. */
  ghost predicate Inside(g: Job, mem: Mem, shape: Shape) {
    forall a :: a in shape && a in mem ==> IsMetaPtr(mem[a].back) && mem[a].back.addr !in g.mem
  }

  ghost predicate Inv(g: Job, mem: Mem, shape: Shape, stack: Stack, newRoot: Ptr) {
    && Untouched(g, mem) && Closed(mem, shape) && Attached(mem, shape) && Partition(g, mem, shape, stack)
    && Inside(g, mem, shape)
    && FramesOk(g, mem, shape, stack, newRoot)
  }

  ghost predicate FramesOk(g: Job, mem: Mem, shape: Shape, stack: Stack, newRoot: Ptr) {
    forall k :: 0 <= k < |stack| ==> FrameOk(g, mem, shape, stack, k, newRoot)
  }

  lemma {:induction false} OwnOpen(stack: Stack, k: nat)
    requires k < |stack|
    ensures Own(stack[k]) <= OpenCells(stack)
  {
    if k < |stack| - 1 {
      OwnOpen(stack[..|stack| - 1], k);
    }
  }

  // ----- how frames survive a step

  /** The finished children of cell `n` are as they were. */
  ghost predicate ChildrenStay(mem: Mem, shape: Shape, mem': Mem, shape': Shape, n: Addr) {
    forall a :: a in shape && a in mem && mem[a].back == NodePtr(n) ==>
      a in shape' && shape'[a] == shape[a] && a in mem' && mem'[a] == mem[a]
  }

  ghost predicate SameCell(mem: Mem, mem': Mem, a: Addr) {
    a in mem && a in mem' && mem'[a] == mem[a]
  }

  lemma SlotStays(mem: Mem, shape: Shape, mem': Mem, shape': Shape, p: Ptr, t: Tree, n: Addr, i: nat)
    requires SlotOk(mem, shape, p, t, NodePtr(n), i) && ChildrenStay(mem, shape, mem', shape', n)
    ensures SlotOk(mem', shape', p, t, NodePtr(n), i)
  {
  }

  lemma DstLinkStays(mem: Mem, mem': Mem, f: Frame, owner: Ptr, slot: nat)
    requires DstLink(mem, f, owner, slot)
    requires f.dst in mem' && mem'[f.dst].NodeCell? && |mem'[f.dst].slots| == FAN_OUT
    requires mem'[f.dst].back == mem[f.dst].back && mem'[f.dst].parentSlot == mem[f.dst].parentSlot
    requires forall a :: a in Own(f) && a != f.dst ==> SameCell(mem, mem', a)
    ensures DstLink(mem', f, owner, slot)
  {
    if f.via.Through? {
      assert f.via.dstSkip in Own(f) && f.via.dstSkip != f.dst;
      assert SameCell(mem, mem', f.via.dstSkip);
    }
  }

  lemma FrameStays(g: Job, mem: Mem, shape: Shape, stack: Stack, newRoot: Ptr,
                   mem': Mem, shape': Shape, stack': Stack, newRoot': Ptr, k: nat)
    requires k < |stack| && k < |stack'| && FrameOk(g, mem, shape, stack, k, newRoot)
    requires stack'[k] == stack[k] && (k > 0 ==> stack'[k - 1] == stack[k - 1])
    requires forall a :: a in Own(stack[k]) ==> SameCell(mem, mem', a)
    requires if k == 0 then newRoot' == newRoot else SameCell(mem, mem', stack[k - 1].dst)
    requires ChildrenStay(mem, shape, mem', shape', stack[k].dst)
    ensures FrameOk(g, mem', shape', stack', k, newRoot')
  {
    hide Goal;
    hide Holds;
    hide AllWellFormed;
    hide SlotOk;
    var f := stack[k];
    assert SameCell(mem, mem', f.dst);
    DstLinkStays(mem, mem', f, DstOwner(stack, k), OwnerSlot(stack, k));
    forall i | 0 <= i < f.slot
      ensures SlotOk(mem', shape', mem'[f.dst].slots[i], Goal(g, f)[i], NodePtr(f.dst), i)
    {
      SlotStays(mem, shape, mem', shape', mem[f.dst].slots[i], Goal(g, f)[i], f.dst, i);
    }
  }

  /** The copy under construction gets `p` in the slot its frame has reached. */
  ghost predicate SlotSet(mem: Mem, mem': Mem, f: Frame, p: Ptr) {
    && f.dst in mem && f.dst in mem' && mem[f.dst].NodeCell? && f.slot < |mem[f.dst].slots|
    && mem'[f.dst] == mem[f.dst].(slots := mem[f.dst].slots[f.slot := p])
  }

  /** The slot is done: the frame moves on. */
  lemma TopAdvances(g: Job, mem: Mem, shape: Shape, stack: Stack, newRoot: Ptr,
                    mem': Mem, shape': Shape, p: Ptr)
    requires stack != []
    requires var n := |stack| - 1; var f := stack[n];
      && FrameOk(g, mem, shape, stack, n, newRoot) && SlotSet(mem, mem', f, p)
      && f.slot < FAN_OUT && SlotOk(mem', shape', p, Goal(g, f)[f.slot], NodePtr(f.dst), f.slot)
      && (forall a :: a in Own(f) && a != f.dst ==> SameCell(mem, mem', a))
      && (n > 0 ==> SameCell(mem, mem', stack[n - 1].dst))
      && ChildrenStay(mem, shape, mem', shape', f.dst)
    ensures var n := |stack| - 1;
      FrameOk(g, mem', shape', stack[n := stack[n].(slot := stack[n].slot + 1)], n, newRoot)
  {
    hide Goal;
    hide Holds;
    hide AllWellFormed;
    hide SlotOk;
    var n := |stack| - 1;
    var f := stack[n];
    var f' := f.(slot := f.slot + 1);
    DstLinkStays(mem, mem', f, DstOwner(stack, n), OwnerSlot(stack, n));
    assert Goal(g, f') == Goal(g, f) by { GoalSame(g, f, f.slot + 1); }
    forall i | 0 <= i < f'.slot
      ensures SlotOk(mem', shape', mem'[f.dst].slots[i], Goal(g, f')[i], NodePtr(f.dst), i)
    {
      if i < f.slot {
        SlotStays(mem, shape, mem', shape', mem[f.dst].slots[i], Goal(g, f)[i], f.dst, i);
      }
    }
    assert Whole(f') == Whole(f) && Entry(f') == Entry(f);
  }

  lemma GoalSame(g: Job, f: Frame, slot: nat)
    requires AllWellFormed(f.ss)
    ensures Goal(g, f.(slot := slot)) == Goal(g, f)
  {
  }

  /** The slot is entered: the frame stays where it is. */
  lemma TopEnters(g: Job, mem: Mem, shape: Shape, stack: Stack, newRoot: Ptr,
                  mem': Mem, shape': Shape, p: Ptr, stack': Stack)
    requires stack != [] && |stack'| >= |stack| && stack'[..|stack|] == stack
    requires var n := |stack| - 1; var f := stack[n];
      && FrameOk(g, mem, shape, stack, n, newRoot) && SlotSet(mem, mem', f, p)
      && (forall a :: a in Own(f) && a != f.dst ==> SameCell(mem, mem', a))
      && (n > 0 ==> SameCell(mem, mem', stack[n - 1].dst))
      && ChildrenStay(mem, shape, mem', shape', f.dst)
    ensures FrameOk(g, mem', shape', stack', |stack| - 1, newRoot)
  {
    hide Goal;
    hide Holds;
    hide AllWellFormed;
    hide SlotOk;
    var n := |stack| - 1;
    var f := stack[n];
    assert stack'[n] == stack'[..|stack|][n];
    if n > 0 {
      assert stack'[n - 1] == stack'[..|stack|][n - 1];
    }
    DstLinkStays(mem, mem', f, DstOwner(stack, n), OwnerSlot(stack, n));
    forall i | 0 <= i < f.slot
      ensures SlotOk(mem', shape', mem'[f.dst].slots[i], Goal(g, f)[i], NodePtr(f.dst), i)
    {
      SlotStays(mem, shape, mem', shape', mem[f.dst].slots[i], Goal(g, f)[i], f.dst, i);
    }
  }

  lemma OwnDst(f: Frame)
    ensures f.dst in Own(f)
  {
  }

  /** The step concerns nothing of the frames but the slot the top one has reached. */
  ghost predicate StackSpared(mem: Mem, shape: Shape, mem': Mem, shape': Shape, stack: Stack) {
    && (forall k, a :: 0 <= k < |stack| && a in Own(stack[k]) && a != stack[|stack| - 1].dst ==> SameCell(mem, mem', a))
    && (forall k :: 0 <= k < |stack| ==> ChildrenStay(mem, shape, mem', shape', stack[k].dst))
  }

  lemma LowerStays(g: Job, mem: Mem, shape: Shape, stack: Stack, newRoot: Ptr,
                   mem': Mem, shape': Shape, stack': Stack, k: nat)
    requires FramesOk(g, mem, shape, stack, newRoot) && Apart(stack) && k < |stack| - 1 && k < |stack'|
    requires stack'[k] == stack[k] && (k > 0 ==> stack'[k - 1] == stack[k - 1])
    requires StackSpared(mem, shape, mem', shape', stack)
    ensures FrameOk(g, mem', shape', stack', k, newRoot)
  {
    hide FrameOk;
    hide Own;
    hide ChildrenStay;
    hide SameCell;
    var top := stack[|stack| - 1];
    OwnDst(top);
    OwnDst(stack[k]);
    if k > 0 {
      OwnDst(stack[k - 1]);
    }
    FrameStays(g, mem, shape, stack, newRoot, mem', shape', stack', newRoot, k);
  }

  /** The top frame's slot is done: every frame is still as it should be. */
  lemma StackAdvances(g: Job, mem: Mem, shape: Shape, stack: Stack, newRoot: Ptr,
                      mem': Mem, shape': Shape, p: Ptr)
    requires stack != [] && FramesOk(g, mem, shape, stack, newRoot) && Apart(stack)
    requires StackSpared(mem, shape, mem', shape', stack)
    requires var f := stack[|stack| - 1];
      && AllWellFormed(f.ss) && SlotSet(mem, mem', f, p)
      && f.slot < FAN_OUT && SlotOk(mem', shape', p, Goal(g, f)[f.slot], NodePtr(f.dst), f.slot)
    ensures var n := |stack| - 1;
      FramesOk(g, mem', shape', stack[n := stack[n].(slot := stack[n].slot + 1)], newRoot)
  {
    hide FrameOk;
    hide Own;
    hide ChildrenStay;
    hide SameCell;
    hide SlotOk;
    var n := |stack| - 1;
    var stack' := stack[n := stack[n].(slot := stack[n].slot + 1)];
    OwnDst(stack[n]);
    if n > 0 {
      OwnDst(stack[n - 1]);
    }
    TopAdvances(g, mem, shape, stack, newRoot, mem', shape', p);
    forall k | 0 <= k < |stack'| ensures FrameOk(g, mem', shape', stack', k, newRoot) {
      if k < n {
        LowerStays(g, mem, shape, stack, newRoot, mem', shape', stack', k);
      }
    }
  }

  // ----- entering a subtree

  /** The tree the machine is about to enter hangs at `cursor`. */
  ghost predicate Pending(g: Job, stack: Stack, cursor: Ptr, t: Tree) {
    && IsMeta(t) && WellFormed(t)
    && if stack == [] then t == g.tree && Holds(g.mem, cursor, t, Null, 0)
       else
         var f := stack[|stack| - 1];
         && f.slot < |f.ss| && f.ss[f.slot] == t
         && Holds(g.mem, cursor, t, NodePtr(f.src), f.slot)
  }

  ghost predicate Blank(c: Cell) {
    c.NodeCell? && |c.slots| == FAN_OUT && forall i :: 0 <= i < FAN_OUT ==> c.slots[i] == Null
  }

  /** A new frame goes on top: its cells are new, its copy is blank and hangs in the
      slot reached. */
  ghost predicate Pushed(g: Job, mem: Mem, stack: Stack, newRoot: Ptr, mem': Mem, newRoot': Ptr, f: Frame) {
    var stack' := stack + [f];
    var n := |stack|;
    && f.slot == 0 && Own(f) !! mem.Keys && mem'.Keys == mem.Keys + Own(f)
    && (forall a :: a in mem && (n > 0 ==> a != stack[n - 1].dst) ==> mem'[a] == mem[a])
    && (n > 0 ==> SlotSet(mem, mem', stack[n - 1], Entry(f)) && mem[stack[n - 1].dst].slots[stack[n - 1].slot] == Null)
    && newRoot' == (if n == 0 then Entry(f) else newRoot)
    && SrcOk(g, f) && SrcLink(g.mem, f, SrcOwner(stack', n), OwnerSlot(stack', n))
    && DstLink(mem', f, DstOwner(stack', n), OwnerSlot(stack', n)) && Nested(g, stack', n)
    && Blank(mem'[f.dst])
  }

  lemma PushedFrame(g: Job, mem: Mem, shape: Shape, stack: Stack, newRoot: Ptr, mem': Mem, newRoot': Ptr, f: Frame)
    requires Pushed(g, mem, stack, newRoot, mem', newRoot', f)
    ensures FrameOk(g, mem', shape, stack + [f], |stack|, newRoot')
  {
    hide Holds;
    hide SrcLink;
    var stack' := stack + [f];
    var n := |stack|;
    assert stack'[n] == f;
    assert Hung(mem', stack', n, newRoot') by {
      if n > 0 {
        assert stack'[n - 1] == stack[n - 1];
      }
    }
  }

  lemma PushedOver(g: Job, mem: Mem, shape: Shape, stack: Stack, newRoot: Ptr, mem': Mem, newRoot': Ptr, f: Frame,
                   k: nat)
    requires Inv(g, mem, shape, stack, newRoot) && Pushed(g, mem, stack, newRoot, mem', newRoot', f)
    requires k < |stack|
    ensures FrameOk(g, mem', shape, stack + [f], k, newRoot')
  {
    SparedByPush(g, mem, shape, stack, newRoot, mem', newRoot', f);
    var stack' := stack + [f];
    var n := |stack|;
    assert stack'[..n] == stack;
    assert newRoot' == newRoot && SlotSet(mem, mem', stack[n - 1], Entry(f));
    hide FrameOk;
    hide Closed;
    hide Pushed;
    hide Partition;
    hide Own;
    hide ChildrenStay;
    OwnDst(stack[n - 1]);
    assert stack'[k] == stack[k] && (k > 0 ==> stack'[k - 1] == stack[k - 1]);
    if k < n - 1 {
      LowerStays(g, mem, shape, stack, newRoot, mem', shape, stack', k);
    } else {
      if k > 0 {
        OwnDst(stack[k - 1]);
      }
      TopEnters(g, mem, shape, stack, newRoot, mem', shape, Entry(f), stack');
    }
  }

  lemma PushKeepsFrames(g: Job, mem: Mem, shape: Shape, stack: Stack, newRoot: Ptr, mem': Mem, newRoot': Ptr, f: Frame)
    requires Inv(g, mem, shape, stack, newRoot) && Pushed(g, mem, stack, newRoot, mem', newRoot', f)
    ensures FramesOk(g, mem', shape, stack + [f], newRoot')
  {
    hide Inv;
    hide Pushed;
    hide FrameOk;
    var stack' := stack + [f];
    forall k | 0 <= k < |stack'| ensures FrameOk(g, mem', shape, stack', k, newRoot') {
      if k == |stack| {
        PushedFrame(g, mem, shape, stack, newRoot, mem', newRoot', f);
      } else {
        PushedOver(g, mem, shape, stack, newRoot, mem', newRoot', f, k);
      }
    }
  }

  lemma SparedByPush(g: Job, mem: Mem, shape: Shape, stack: Stack, newRoot: Ptr, mem': Mem, newRoot': Ptr, f: Frame)
    requires stack != [] && Inv(g, mem, shape, stack, newRoot) && Pushed(g, mem, stack, newRoot, mem', newRoot', f)
    ensures StackSpared(mem, shape, mem', shape, stack) && Apart(stack)
  {
    hide FrameOk;
    hide Own;
    hide SlotOk;
    hide Closed;
    forall k, a | 0 <= k < |stack| && a in Own(stack[k]) && a != stack[|stack| - 1].dst
      ensures SameCell(mem, mem', a)
    {
      OwnOpen(stack, k);
    }
    OwnDst(stack[|stack| - 1]);
  }

  lemma OpenCellsPush(stack: Stack, f: Frame)
    ensures OpenCells(stack + [f]) == OpenCells(stack) + Own(f)
  {
    assert (stack + [f])[..|stack|] == stack;
  }

  lemma ApartPush(stack: Stack, f: Frame)
    requires Apart(stack) && OpenCells(stack) !! Own(f)
    ensures Apart(stack + [f])
  {
    hide OpenCells;
    hide Own;
    forall k | 0 <= k < |stack| ensures Own(stack[k]) !! Own(f) {
      OwnOpen(stack, k);
    }
  }

  lemma SumDisjoint(a: set<Addr>, b: set<Addr>, c: set<Addr>, all: set<Addr>, d: set<Addr>)
    requires all == a + b + c && d !! all
    ensures d !! a && d !! b && d !! c && all + d == a + b + (c + d)
  {
  }

  /** A step that only adds the cells of a new top frame keeps cells apart. */
  lemma PushPartition(g: Job, mem: Mem, shape: Shape, stack: Stack, mem': Mem, f: Frame)
    requires Partition(g, mem, shape, stack) && Own(f) !! mem.Keys && mem'.Keys == mem.Keys + Own(f)
    ensures Partition(g, mem', shape, stack + [f])
  {
    SumDisjoint(g.mem.Keys, shape.Keys, OpenCells(stack), mem.Keys, Own(f));
    OpenCellsPush(stack, f);
    ApartPush(stack, f);
    hide OpenCells;
    hide Apart;
    hide Own;
    var stack' := stack + [f];
    forall k | 0 <= k < |stack'|
      ensures Own(stack'[k]) !! g.mem.Keys && Own(stack'[k]) !! shape.Keys
    {
      assert stack'[k] == if k < |stack| then stack[k] else f;
    }
  }

  lemma PushInv(g: Job, mem: Mem, shape: Shape, stack: Stack, newRoot: Ptr, mem': Mem, newRoot': Ptr, f: Frame)
    requires Inv(g, mem, shape, stack, newRoot) && Pushed(g, mem, stack, newRoot, mem', newRoot', f)
    ensures Inv(g, mem', shape, stack + [f], newRoot')
  {
    PushKeepsFrames(g, mem, shape, stack, newRoot, mem', newRoot', f);
    PushPartition(g, mem, shape, stack, mem', f);
    PushCells(g, mem, shape, stack, newRoot, mem', newRoot', f);
    hide FramesOk;
    hide Partition;
    hide Pushed;
    hide Closed;
    hide Attached;
  }

  lemma PushCells(g: Job, mem: Mem, shape: Shape, stack: Stack, newRoot: Ptr, mem': Mem, newRoot': Ptr, f: Frame)
    requires Inv(g, mem, shape, stack, newRoot) && Pushed(g, mem, stack, newRoot, mem', newRoot', f)
    ensures Untouched(g, mem') && Closed(mem', shape) && Attached(mem', shape) && Inside(g, mem', shape)
  {
    hide FrameOk;
    hide FramesOk;
    hide CellOk;
    hide AttachedAt;
    hide SrcOk;
    hide SrcLink;
    hide DstLink;
    hide Own;
    hide Apart;
    hide OpenCells;
    if stack != [] {
      OwnDst(stack[|stack| - 1]);
    }
    ShapeInMem(mem, shape);
    ClosedFrame(mem, mem', shape);
    if stack != [] {
      AttachedSlotSet(mem, mem', shape, stack[|stack| - 1], Entry(f));
    } else {
      AttachedFrame(mem, mem', shape);
    }
  }

  lemma AttachedFrame(mem: Mem, mem': Mem, shape: Shape)
    requires Attached(mem, shape)
    requires forall a :: a in mem ==> a in mem' && mem'[a] == mem[a]
    ensures Attached(mem', shape)
  {
    forall a | a in shape ensures AttachedAt(mem', a) {
      AttachedStays(mem, mem', a);
    }
  }

  /** Filling an empty slot detaches nothing. */
  lemma AttachedSlotSet(mem: Mem, mem': Mem, shape: Shape, f: Frame, p: Ptr)
    requires Attached(mem, shape) && SlotSet(mem, mem', f, p) && mem[f.dst].slots[f.slot] == Null
    requires f.dst !in shape
    requires forall a :: a in mem && a != f.dst ==> a in mem' && mem'[a] == mem[a]
    ensures Attached(mem', shape)
  {
    forall a | a in shape ensures a in mem' && AttachedAt(mem', a) {
      assert AttachedAt(mem, a);
      AttachedStays(mem, mem', a);
    }
  }

  lemma ShapeInMem(mem: Mem, shape: Shape)
    requires Closed(mem, shape)
    ensures shape.Keys <= mem.Keys
  {
    forall a | a in shape ensures a in mem {
      assert CellOk(mem, shape, a);
    }
  }
}
