/** The steps of a collection, each shown to keep the invariant. */
module Steps {
  import opened AssocTree
  import opened Compress
  import opened Collect
  import opened NormalForm
  import opened Snag
  import opened Memory
  import opened Heap
  import opened CompressNode
  import opened Traverse
  import opened Excise

  lemma GoalAt(g: Job, f: Frame, i: nat)
    requires AllWellFormed(f.ss) && i < FAN_OUT
    ensures Sifted(g, f)[i] == Filter(f.ss[i], g.iter, SeenBefore(f, i))
    ensures WellFormed(Filter(f.ss[i], g.iter, SeenBefore(f, i)))
    ensures Goal(g, f)[i] == Compact(Filter(f.ss[i], g.iter, SeenBefore(f, i)))
  {
    FilterAllAt(f.ss, g.iter, f.seen, i);
    FilterWellFormed(f.ss[i], g.iter, SeenBefore(f, i));
    CompactAllAt(Sifted(g, f), i);
  }

  /** The frame's whole subtree, filtered. */
  lemma WholeFiltered(g: Job, f: Frame)
    requires AllWellFormed(f.ss)
    ensures WellFormed(Whole(f))
    ensures match f.via
      case Direct => Filter(Whole(f), g.iter, f.seen) == Node(Sifted(g, f))
      case Through(_, k, _) => Filter(Whole(f), g.iter, f.seen) == Shortcut(k, Node(Sifted(g, f)))
  {
  }

  /** What a compressed node hands up is what compacting its subtree means. */
  lemma HandedIsCompact(g: Job, f: Frame)
    requires AllWellFormed(f.ss)
    ensures var t := Filter(Whole(f), g.iter, f.seen);
      WellFormed(t) && Handed(f.via, Compress.Compress(Goal(g, f))) == Compact(t)
  {
    WholeFiltered(g, f);
    assert WellFormed(Node(Sifted(g, f)));
    hide LeavesOf;
    hide Tally;
    hide Sifted;
    hide Lone;
    hide LoneShortcut;
  }

  // ----- assertions passed so far

  /** No subtree that is done fails an assertion. */
  ghost predicate Clear(g: Job, stack: Stack) {
    forall k, i :: 0 <= k < |stack| && AllWellFormed(stack[k].ss) && 0 <= i < stack[k].slot && i < FAN_OUT ==>
      !Trapped(Sifted(g, stack[k])[i])
  }

  lemma ClearNode(g: Job, f: Frame)
    requires AllWellFormed(f.ss)
    requires !CompressTraps(Goal(g, f))
    requires forall i :: 0 <= i < FAN_OUT ==> !Trapped(Sifted(g, f)[i])
    ensures WellFormed(Filter(Whole(f), g.iter, f.seen)) && !Trapped(Filter(Whole(f), g.iter, f.seen))
  {
    HandedIsCompact(g, f);
    WholeFiltered(g, f);
    assert WellFormed(Node(Sifted(g, f)));
    hide Sifted;
    hide CompressTraps;
    assert !Trapped(Node(Sifted(g, f)));
  }

  lemma TrapNode(g: Job, f: Frame)
    requires AllWellFormed(f.ss)
    requires CompressTraps(Goal(g, f)) || exists i :: 0 <= i < FAN_OUT && Trapped(Sifted(g, f)[i])
    ensures WellFormed(Filter(Whole(f), g.iter, f.seen)) && Trapped(Filter(Whole(f), g.iter, f.seen))
  {
    HandedIsCompact(g, f);
    WholeFiltered(g, f);
    assert WellFormed(Node(Sifted(g, f)));
    hide Sifted;
    hide CompressTraps;
    assert Trapped(Node(Sifted(g, f)));
  }

  /** An assertion that fails in the top frame fails in the whole tree. */
  lemma {:induction false} TrapUp(g: Job, stack: Stack, k: nat)
    requires k < |stack|
    requires forall j :: 0 <= j < |stack| ==> AllWellFormed(stack[j].ss) && Nested(g, stack, j)
    requires WellFormed(Filter(Whole(stack[k]), g.iter, stack[k].seen))
    requires Trapped(Filter(Whole(stack[k]), g.iter, stack[k].seen))
    ensures WellFormed(Filter(g.tree, g.iter, [])) && Trapped(Filter(g.tree, g.iter, []))
  {
    hide *;
    assert Nested(g, stack, k);
    NestedIs(g, stack, k);
    if k > 0 {
      TrapAbove(g, stack[k - 1], stack[k]);
      TrapUp(g, stack, k - 1);
    }
  }

  lemma NestedIs(g: Job, stack: Stack, k: nat)
    requires k < |stack| && Nested(g, stack, k)
    ensures if k == 0 then Whole(stack[k]) == g.tree && stack[k].seen == [] else
      var f := stack[k - 1];
      f.slot < |f.ss| && f.ss[f.slot] == Whole(stack[k]) && stack[k].seen == SeenBefore(f, f.slot)
  {
  }

  /** What fails below a frame fails in it. */
  lemma TrapAbove(g: Job, f: Frame, top: Frame)
    requires AllWellFormed(f.ss) && f.slot < |f.ss| && f.ss[f.slot] == Whole(top)
    requires top.seen == SeenBefore(f, f.slot)
    requires WellFormed(Filter(Whole(top), g.iter, top.seen)) && Trapped(Filter(Whole(top), g.iter, top.seen))
    ensures WellFormed(Filter(Whole(f), g.iter, f.seen)) && Trapped(Filter(Whole(f), g.iter, f.seen))
  {
    hide WellFormed;
    hide Filter;
    hide Trapped;
    hide Sifted;
    hide Goal;
    hide CompressTraps;
    hide Compact;
    hide CompactAll;
    GoalAt(g, f, f.slot);
    TrapNode(g, f);
  }

  // ----- termination

  function Weight(t: Tree): nat {
    match t
    case Node(ss) => 1 + Rest(ss, 0)
    case Shortcut(_, c) => Weight(c)
    case _ => 0
  }

  /** The work left in a node from slot `i` on. */
  function Rest(ts: seq<Tree>, i: nat): nat
    decreases ts, |ts| - i
  {
    if i < |ts| then 1 + Weight(ts[i]) + Rest(ts, i + 1) else 0
  }

  function Waiting(stack: Stack): nat {
    if stack == [] then 0
    else
      var n := |stack| - 1;
      Waiting(stack[..n]) + 1 + Rest(stack[n].ss, stack[n].slot + 1)
  }

  function Work(stack: Stack): nat {
    if stack == [] then 0
    else
      var n := |stack| - 1;
      Waiting(stack[..n]) + Rest(stack[n].ss, stack[n].slot)
  }

  function Advanced(stack: Stack): Stack
    requires stack != []
  {
    var n := |stack| - 1;
    stack[n := stack[n].(slot := stack[n].slot + 1)]
  }

  lemma WorkAdvances(stack: Stack)
    requires stack != [] && stack[|stack| - 1].slot < |stack[|stack| - 1].ss|
    ensures Work(Advanced(stack)) < Work(stack)
  {
    var n := |stack| - 1;
    assert Advanced(stack)[..n] == stack[..n];
  }

  lemma WorkPushed(stack: Stack, f: Frame)
    requires stack != [] && f.slot == 0
    requires var t := stack[|stack| - 1]; t.slot < |t.ss| && t.ss[t.slot] == Whole(f)
    ensures Work(stack + [f]) < Work(stack)
  {
    var t := stack[|stack| - 1];
    assert (stack + [f])[..|stack|] == stack;
    assert Weight(Whole(f)) == 1 + Rest(f.ss, 0) by { assert Weight(Node(f.ss)) == 1 + Rest(f.ss, 0); }
    assert Rest(t.ss, t.slot) == 1 + Weight(Whole(f)) + Rest(t.ss, t.slot + 1);
  }

  lemma WorkPopped(stack: Stack)
    requires |stack| > 1
    ensures Work(Advanced(stack[..|stack| - 1])) < Work(stack)
  {
    var n := |stack| - 1;
    var lower := stack[..n];
    assert Advanced(lower)[..n - 1] == lower[..n - 1];
    assert Waiting(lower) == Waiting(lower[..n - 1]) + 1 + Rest(lower[n - 1].ss, lower[n - 1].slot + 1);
  }

  // ----- memory asked for

  /** The allocations that copying a tree takes: one for each node and shortcut. */
  function Cells(t: Tree): nat {
    match t
    case Node(ss) => 1 + CellsFrom(ss, 0)
    case Shortcut(_, c) => 1 + Cells(c)
    case _ => 0
  }

  function CellsFrom(ts: seq<Tree>, i: nat): nat
    decreases ts, |ts| - i
  {
    if i < |ts| then Cells(ts[i]) + CellsFrom(ts, i + 1) else 0
  }

  /** Those that entering a node takes. */
  function Cost(via: Via): nat {
    if via.Direct? then 1 else 2
  }

  /** Those to come in the slots after the ones the frames are in. */
  function Later(stack: Stack): nat {
    if stack == [] then 0
    else
      var n := |stack| - 1;
      Later(stack[..n]) + CellsFrom(stack[n].ss, stack[n].slot + 1)
  }

  /** Those to come, the top frame's slot included. */
  function Owed(stack: Stack): nat {
    if stack == [] then 0
    else
      var n := |stack| - 1;
      Later(stack[..n]) + CellsFrom(stack[n].ss, stack[n].slot)
  }

  lemma OwedAdvances(stack: Stack)
    requires stack != []
    requires var f := stack[|stack| - 1]; f.slot < |f.ss| && !IsMeta(f.ss[f.slot])
    ensures Owed(Advanced(stack)) == Owed(stack)
  {
    var n := |stack| - 1;
    var f := stack[n];
    assert Advanced(stack)[..n] == stack[..n];
    assert CellsFrom(f.ss, f.slot) == Cells(f.ss[f.slot]) + CellsFrom(f.ss, f.slot + 1);
  }

  lemma OwedPushed(stack: Stack, f: Frame)
    requires stack != [] && f.slot == 0
    requires var t := stack[|stack| - 1]; t.slot < |t.ss| && t.ss[t.slot] == Whole(f)
    ensures Owed(stack + [f]) + Cost(f.via) == Owed(stack)
  {
    var t := stack[|stack| - 1];
    assert (stack + [f])[..|stack|] == stack;
    assert Cells(Whole(f)) == Cost(f.via) + CellsFrom(f.ss, 0) by {
      assert Cells(Node(f.ss)) == 1 + CellsFrom(f.ss, 0);
    }
    assert CellsFrom(t.ss, t.slot) == Cells(Whole(f)) + CellsFrom(t.ss, t.slot + 1);
  }

  lemma OwedFirst(f: Frame)
    requires f.slot == 0
    ensures Owed([f]) + Cost(f.via) == Cells(Whole(f))
  {
    assert [f][..0] == [];
    assert Cells(Node(f.ss)) == 1 + CellsFrom(f.ss, 0);
  }

  lemma OwedPopped(stack: Stack)
    requires |stack| > 1
    requires var f := stack[|stack| - 1]; f.slot >= |f.ss|
    ensures Owed(Advanced(stack[..|stack| - 1])) == Owed(stack)
  {
    var n := |stack| - 1;
    var lower := stack[..n];
    assert Advanced(lower)[..n - 1] == lower[..n - 1];
  }

  // ----- passing a leaf or an empty slot

  lemma {:induction false} OpenCellsAdvanced(stack: Stack)
    requires stack != []
    ensures OpenCells(Advanced(stack)) == OpenCells(stack)
  {
    var n := |stack| - 1;
    assert Advanced(stack)[..n] == stack[..n];
  }

  lemma PartitionAdvanced(g: Job, mem: Mem, shape: Shape, stack: Stack)
    requires stack != [] && Partition(g, mem, shape, stack)
    ensures Partition(g, mem, shape, Advanced(stack))
  {
    OpenCellsAdvanced(stack);
    hide OpenCells;
    var stack' := Advanced(stack);
    assert forall k :: 0 <= k < |stack| ==> Own(stack'[k]) == Own(stack[k]);
  }

  lemma SparedBySlot(g: Job, mem: Mem, shape: Shape, stack: Stack, mem': Mem)
    requires stack != [] && Partition(g, mem, shape, stack)
    requires forall a :: a in mem && a != stack[|stack| - 1].dst ==> a in mem' && mem'[a] == mem[a]
    ensures StackSpared(mem, shape, mem', shape, stack)
  {
    OwnDst(stack[|stack| - 1]);
    hide Own;
    forall k, a | 0 <= k < |stack| && a in Own(stack[k]) && a != stack[|stack| - 1].dst
      ensures SameCell(mem, mem', a)
    {
      OwnOpen(stack, k);
    }
  }

  /** The top frame passes a slot that holds no subtree. */
  lemma PassSlot(g: Job, mem: Mem, shape: Shape, stack: Stack, newRoot: Ptr, mem': Mem, p: Ptr)
    requires stack != [] && Inv(g, mem, shape, stack, newRoot)
    requires var f := stack[|stack| - 1];
      && f.slot < FAN_OUT && AllWellFormed(f.ss) && !IsMetaPtr(p) && Mirror(p, Goal(g, f)[f.slot])
      && f.dst in mem && mem[f.dst].NodeCell? && f.slot < |mem[f.dst].slots| && mem[f.dst].slots[f.slot] == Null
      && mem' == SetSlot(mem, f.dst, f.slot, p)
    ensures Inv(g, mem', shape, Advanced(stack), newRoot)
  {
    hide FrameOk;
    hide CellOk;
    hide Goal;
    var f := stack[|stack| - 1];
    SparedBySlot(g, mem, shape, stack, mem');
    StackAdvances(g, mem, shape, stack, newRoot, mem', shape, p);
    OwnDst(f);
    hide FramesOk;
    hide StackSpared;
    hide Own;
    assert mem'.Keys == mem.Keys;
    assert Partition(g, mem', shape, stack);
    PartitionAdvanced(g, mem', shape, stack);
    ShapeInMem(mem, shape);
    ClosedFrame(mem, mem', shape);
    AttachedSlotSet(mem, mem', shape, f, p);
  }

  // ----- leaving a subtree

  lemma TopFrame(g: Job, mem: Mem, shape: Shape, stack: Stack, newRoot: Ptr)
    requires stack != [] && Inv(g, mem, shape, stack, newRoot)
    ensures FrameOk(g, mem, shape, stack, |stack| - 1, newRoot)
    ensures |stack| > 1 ==> FrameOk(g, mem, shape, stack, |stack| - 2, newRoot)
  {
  }

  /** With all its slots done, the top frame's node is open over its goal. */
  lemma TopOpen(g: Job, mem: Mem, shape: Shape, stack: Stack, newRoot: Ptr)
    requires stack != [] && Inv(g, mem, shape, stack, newRoot) && stack[|stack| - 1].slot == FAN_OUT
    ensures var f := stack[|stack| - 1];
      AllWellFormed(f.ss) && Open(mem, shape, f.dst, Goal(g, f)) && AllNormal(Goal(g, f))
  {
    var f := stack[|stack| - 1];
    TopFrame(g, mem, shape, stack, newRoot);
    OwnDst(f);
    NodeNormal(Sifted(g, f));
  }

  /** Once compressed, it is ready to be finished. */
  lemma TopReady(g: Job, mem: Mem, shape: Shape, stack: Stack, newRoot: Ptr, mem': Mem, shape': Shape, r: seq<Tree>)
    requires stack != [] && Inv(g, mem, shape, stack, newRoot)
    requires var f := stack[|stack| - 1];
      && OnlyFolded(mem, shape, mem', shape', f.dst) && Open(mem', shape', f.dst, r) && Attached(mem', shape')
      && AllNormal(r) && mem'[f.dst].branch == |LeavesOf(r)|
    ensures var n := |stack| - 1;
      Ready(mem', shape', newRoot, stack[n], r, DstOwner(stack, n), OwnerSlot(stack, n))
  {
    OpenNode(mem', shape', stack[|stack| - 1].dst, r);
    TopHangs(g, mem, shape, stack, newRoot, mem', shape');
    hide LeavesOf;
    hide Open;
    hide AllNormal;
    hide Closed;
    hide Attached;
    hide FrameOk;
    hide FramesOk;
    hide Own;
    var n := |stack| - 1;
    assert Own(stack[n]) !! shape'.Keys;
  }

  lemma TopHangs(g: Job, mem: Mem, shape: Shape, stack: Stack, newRoot: Ptr, mem': Mem, shape': Shape)
    requires stack != [] && Inv(g, mem, shape, stack, newRoot)
    requires var f := stack[|stack| - 1];
      && OnlyFolded(mem, shape, mem', shape', f.dst) && f.dst in mem' && mem'[f.dst].NodeCell?
      && |mem'[f.dst].slots| == FAN_OUT
    ensures var n := |stack| - 1; var f := stack[n];
      && DstLink(mem', f, DstOwner(stack, n), OwnerSlot(stack, n))
      && (n == 0 ==> newRoot == Entry(f))
      && (n > 0 ==>
            var o := stack[n - 1].dst;
            && o in mem' && mem'[o].NodeCell? && stack[n - 1].slot < |mem'[o].slots|
            && mem'[o].slots[stack[n - 1].slot] == Entry(f)
            && o !in Own(f) && o !in shape')
  {
    var n := |stack| - 1;
    var f := stack[n];
    TopFrame(g, mem, shape, stack, newRoot);
    OwnDst(f);
    if n > 0 {
      OwnDst(stack[n - 1]);
      assert Own(stack[n - 1]) !! Own(f);
    }
    hide CellOk;
    hide AttachedAt;
    hide Holds;
    hide SlotOk;
    hide SrcOk;
    hide SrcLink;
    hide Own;
    forall a | a in Own(f) && a != f.dst ensures SameCell(mem, mem', a) {
      OwnOpen(stack, n);
    }
    DstLinkStays(mem, mem', f, DstOwner(stack, n), OwnerSlot(stack, n));
  }

  /** From the compression of the top frame's node to where its subtree hangs done,
      nothing changed that other frames rely on. */
  lemma SparedByPop(g: Job, mem: Mem, shape: Shape, stack: Stack, newRoot: Ptr, mem1: Mem, shape1: Shape,
                    t: Tree, mem': Mem, shape': Shape, newRoot': Ptr, p: Ptr)
    requires |stack| > 1 && Inv(g, mem, shape, stack, newRoot)
    requires var n := |stack| - 1; var f := stack[n];
      && OnlyFolded(mem, shape, mem1, shape1, f.dst)
      && Settled(mem1, shape1, newRoot, f, t, DstOwner(stack, n), OwnerSlot(stack, n), mem', shape', newRoot', p)
    ensures StackSpared(mem, shape, mem', shape', stack[..|stack| - 1])
    ensures SlotSet(mem, mem', stack[|stack| - 2], p)
  {
    hide *;
    var n := |stack| - 1;
    var f, owner := stack[n], DstOwner(stack, n);
    ApartByPop(g, mem, shape, stack, newRoot);
    SettledMeans(mem1, shape1, newRoot, stack, t, mem', shape', newRoot', p);
    SparedAcross(mem, shape, mem1, shape1, f, owner, mem', shape');
    StackIsSpared(g, mem, shape, stack, newRoot, mem', shape');
    SlotSetAcross(mem, mem1, mem', stack[n - 1], p);
  }

  lemma SettledMeans(mem1: Mem, shape1: Shape, newRoot: Ptr, stack: Stack, t: Tree, mem': Mem, shape': Shape,
                     newRoot': Ptr, p: Ptr)
    requires |stack| > 1
    requires var n := |stack| - 1;
      Settled(mem1, shape1, newRoot, stack[n], t, DstOwner(stack, n), OwnerSlot(stack, n), mem', shape', newRoot', p)
    ensures var n := |stack| - 1;
      Spared(mem1, shape1, stack[n], DstOwner(stack, n), mem', shape') && SlotSet(mem1, mem', stack[n - 1], p)
  {
    hide Closed;
    hide Attached;
    hide Spared;
    hide Housed;
    hide Own;
  }

  lemma SlotSetAcross(mem: Mem, mem1: Mem, mem': Mem, f: Frame, p: Ptr)
    requires SameCell(mem, mem1, f.dst) && SlotSet(mem1, mem', f, p)
    ensures SlotSet(mem, mem', f, p)
  {
  }

  lemma StackIsSpared(g: Job, mem: Mem, shape: Shape, stack: Stack, newRoot: Ptr, mem': Mem, shape': Shape)
    requires |stack| > 1 && Inv(g, mem, shape, stack, newRoot)
    requires Spared(mem, shape, stack[|stack| - 1], DstOwner(stack, |stack| - 1), mem', shape')
    ensures StackSpared(mem, shape, mem', shape', stack[..|stack| - 1])
  {
    hide Inv;
    hide Own;
    hide Foreign;
    var n := |stack| - 1;
    var top, lower := stack[n - 1].dst, stack[..n];
    forall k, a | 0 <= k < n && a in Own(lower[k]) && a != top ensures SameCell(mem, mem', a) {
      OwnedIsForeign(g, mem, shape, stack, newRoot, k, a);
    }
    forall k | 0 <= k < n ensures ChildrenStay(mem, shape, mem', shape', lower[k].dst) {
      forall a | a in shape && a in mem && mem[a].back == NodePtr(stack[k].dst)
        ensures SameCell(mem, mem', a) && a in shape' && shape'[a] == shape[a]
      {
        ChildIsForeign(g, mem, shape, stack, newRoot, k, a);
      }
    }
  }

  /** The frames' cells are open, and no frame shares one. */
  lemma ApartByPop(g: Job, mem: Mem, shape: Shape, stack: Stack, newRoot: Ptr)
    requires |stack| > 1 && Inv(g, mem, shape, stack, newRoot)
    ensures var n := |stack| - 1; var f := stack[n];
      && f.dst !in shape && stack[n - 1].dst in mem && stack[n - 1].dst != f.dst && stack[n - 1].dst !in shape
  {
    hide FrameOk;
    hide Closed;
    hide Attached;
    hide Own;
    var n := |stack| - 1;
    OwnDst(stack[n]);
    OwnDst(stack[n - 1]);
    OwnOpen(stack, n - 1);
  }

  lemma OwnedIsForeign(g: Job, mem: Mem, shape: Shape, stack: Stack, newRoot: Ptr, k: nat, a: Addr)
    requires |stack| > 1 && Inv(g, mem, shape, stack, newRoot)
    requires k < |stack| - 1 && a in Own(stack[k]) && a != stack[|stack| - 2].dst
    ensures Foreign(mem, shape, stack[|stack| - 1], DstOwner(stack, |stack| - 1), a)
  {
    hide FrameOk;
    hide Closed;
    hide Attached;
    hide Own;
    OwnOpen(stack, k);
  }

  lemma ChildIsForeign(g: Job, mem: Mem, shape: Shape, stack: Stack, newRoot: Ptr, k: nat, a: Addr)
    requires |stack| > 1 && Inv(g, mem, shape, stack, newRoot)
    requires k < |stack| - 1 && a in shape && a in mem && mem[a].back == NodePtr(stack[k].dst)
    ensures Foreign(mem, shape, stack[|stack| - 1], DstOwner(stack, |stack| - 1), a)
  {
    hide FrameOk;
    hide Closed;
    hide Attached;
    hide Own;
    OwnDst(stack[k]);
    OwnDst(stack[|stack| - 1]);
    OwnDst(stack[|stack| - 2]);
  }

  /** What compressing and settling a frame leave alone. */
  lemma SparedAcross(mem: Mem, shape: Shape, mem1: Mem, shape1: Shape, f: Frame, owner: Ptr, mem': Mem, shape': Shape)
    requires OnlyFolded(mem, shape, mem1, shape1, f.dst) && Spared(mem1, shape1, f, owner, mem', shape')
    requires f.dst !in shape
    ensures Spared(mem, shape, f, owner, mem', shape')
    ensures forall a :: a in mem && a != f.dst && a !in shape ==> SameCell(mem, mem1, a)
  {
    OwnDst(f);
    hide Own;
    forall a | Foreign(mem, shape, f, owner, a)
      ensures SameCell(mem, mem', a) && (a in shape ==> a in shape' && shape'[a] == shape[a])
    {
      assert SameCell(mem, mem1, a);
      assert Foreign(mem1, shape1, f, owner, a);
    }
  }

  lemma PartitionPopped(g: Job, mem: Mem, shape: Shape, stack: Stack, mem': Mem, shape': Shape)
    requires stack != [] && Partition(g, mem, shape, stack)
    requires var f := stack[|stack| - 1];
      shape'.Keys <= shape.Keys + Own(f) && mem'.Keys == (mem.Keys - shape.Keys - Own(f)) + shape'.Keys
    ensures Partition(g, mem', shape', stack[..|stack| - 1])
  {
    var n := |stack| - 1;
    var f := stack[n];
    var lower := stack[..n];
    OpenApart(stack);
    OpenAside(g, shape, stack);
    OpenSplit(stack);
    hide OpenCells;
    hide Own;
    KeysPopped(mem.Keys, g.mem.Keys, shape.Keys, OpenCells(lower), Own(f), mem'.Keys, shape'.Keys);
    forall k | 0 <= k < n ensures lower[k] == stack[k] && Own(stack[k]) !! shape'.Keys {
      OwnOpen(lower, k);
    }
  }

  lemma OpenSplit(stack: Stack)
    requires stack != []
    ensures OpenCells(stack) == OpenCells(stack[..|stack| - 1]) + Own(stack[|stack| - 1])
  {
    hide Own;
  }

  /** Of the cells in use, those of the popped frame are finished or released. */
  lemma KeysPopped(mem: set<Addr>, old': set<Addr>, done: set<Addr>, lower: set<Addr>, own: set<Addr>,
                   mem': set<Addr>, done': set<Addr>)
    requires mem == old' + done + (lower + own) && old' !! done && lower !! own && lower !! old' && lower !! done
    requires own !! old' && own !! done
    requires done' <= done + own && mem' == (mem - done - own) + done'
    ensures mem' == old' + done' + lower && old' !! done' && lower !! done'
  {
  }

  lemma {:induction false} OpenAside(g: Job, shape: Shape, stack: Stack)
    requires forall k :: 0 <= k < |stack| ==> Own(stack[k]) !! g.mem.Keys && Own(stack[k]) !! shape.Keys
    ensures OpenCells(stack) !! g.mem.Keys && OpenCells(stack) !! shape.Keys
  {
    hide Own;
    if stack != [] {
      var n := |stack| - 1;
      assert forall k :: 0 <= k < n ==> stack[..n][k] == stack[k];
      OpenAside(g, shape, stack[..n]);
    }
  }

  lemma OpenApart(stack: Stack)
    requires stack != [] && Apart(stack)
    ensures OpenCells(stack[..|stack| - 1]) !! Own(stack[|stack| - 1])
  {
    var n := |stack| - 1;
    OpenApartFrom(stack, n, n);
  }

  lemma {:induction false} OpenApartFrom(stack: Stack, m: nat, k: nat)
    requires m <= k < |stack| && Apart(stack)
    ensures OpenCells(stack[..m]) !! Own(stack[k])
  {
    hide Own;
    if m > 0 {
      assert stack[..m][..m - 1] == stack[..m - 1];
      OpenApartFrom(stack, m - 1, k);
    }
  }

  /** The finished cells of a state after the top frame is done with. */
  lemma KeysComposed(mem: Mem, shape: Shape, mem1: Mem, shape1: Shape, mem': Mem, shape': Shape, n: Addr,
                     own: set<Addr>)
    requires OnlyFolded(mem, shape, mem1, shape1, n) && shape.Keys <= mem.Keys && shape1.Keys <= mem1.Keys
    requires own !! shape.Keys
    requires shape'.Keys <= shape1.Keys + own && mem'.Keys == (mem1.Keys - shape1.Keys - own) + shape'.Keys
    requires n in own
    ensures shape'.Keys <= shape.Keys + own && mem'.Keys == (mem.Keys - shape.Keys - own) + shape'.Keys
  {
  }

  /** Leaving the top frame for the one below, whose slot is then done. */
  lemma PopInv(g: Job, mem: Mem, shape: Shape, stack: Stack, newRoot: Ptr, mem1: Mem, shape1: Shape,
               mem': Mem, shape': Shape, newRoot': Ptr, p: Ptr)
    requires |stack| > 1 && Inv(g, mem, shape, stack, newRoot) && Closed(mem1, shape1)
    requires var n := |stack| - 1; var f := stack[n];
      && OnlyFolded(mem, shape, mem1, shape1, f.dst) && AllWellFormed(stack[n - 1].ss) && stack[n - 1].slot < FAN_OUT
      && Settled(mem1, shape1, newRoot, f, Goal(g, stack[n - 1])[stack[n - 1].slot],
                 DstOwner(stack, n), OwnerSlot(stack, n), mem', shape', newRoot', p)
    ensures Inv(g, mem', shape', Advanced(stack[..|stack| - 1]), newRoot')
  {
    hide FrameOk;
    hide FramesOk;
    hide StackSpared;
    hide SlotSet;
    hide Goal;
    hide Spared;
    hide Own;
    hide Apart;
    hide OnlyFolded;
    hide CellOk;
    hide AttachedAt;
    hide SlotOk;
    hide OpenCells;
    var n := |stack| - 1;
    var f := stack[n];
    var lower := stack[..n];
    var t := Goal(g, stack[n - 1])[stack[n - 1].slot];
    SparedByPop(g, mem, shape, stack, newRoot, mem1, shape1, t, mem', shape', newRoot', p);
    LowerFrames(g, mem, shape, stack, newRoot);
    ShapeInMem(mem, shape);
    ShapeInMem(mem1, shape1);
    OwnDst(f);
    KeysComposed(mem, shape, mem1, shape1, mem', shape', f.dst, Own(f));
    PartitionPopped(g, mem, shape, stack, mem', shape');
    UntouchedStays(g, mem, shape, stack, mem1, shape1, mem', shape', newRoot, newRoot', t, p);
    InsidePopped(g, mem, shape, stack, mem1, shape1, newRoot, newRoot', t, mem', shape', p);
    OwnDst(stack[n - 1]);
    assert lower[|lower| - 1] == stack[n - 1];
    SettledSlot(mem1, shape1, newRoot, f, t, stack[n - 1].dst, stack[n - 1].slot, mem', shape', newRoot', p);
    StackAdvances(g, mem, shape, lower, newRoot, mem', shape', p);
    hide Partition;
    PartitionAdvanced(g, mem', shape', lower);
  }

  /** All finished cells but the one just hung are inside the new tree. */
  lemma InsidePopped(g: Job, mem: Mem, shape: Shape, stack: Stack, mem1: Mem, shape1: Shape, newRoot: Ptr,
                     newRoot': Ptr,
                     t: Tree, mem': Mem, shape': Shape, p: Ptr)
    requires stack != [] && Inv(g, mem, shape, stack, newRoot) && Closed(mem1, shape1)
    requires var n := |stack| - 1; var f := stack[n];
      && OnlyFolded(mem, shape, mem1, shape1, f.dst)
      && Settled(mem1, shape1, newRoot, f, t, DstOwner(stack, n), OwnerSlot(stack, n), mem', shape', newRoot', p)
    ensures forall a :: a in shape' && a in mem' && a != p.addr ==>
      IsMetaPtr(mem'[a].back) && mem'[a].back.addr !in g.mem
    ensures |stack| > 1 ==> Inside(g, mem', shape')
  {
    hide FrameOk;
    hide Closed;
    hide Attached;
    hide Own;
    hide Spared;
    var n := |stack| - 1;
    OwnDst(stack[n]);
    if n > 0 {
      OwnDst(stack[n - 1]);
    }
    assert Closed(mem', shape');
  }

  lemma SettledSlot(mem: Mem, shape: Shape, newRoot: Ptr, f: Frame, t: Tree, o: Addr, slot: nat,
                    mem': Mem, shape': Shape, newRoot': Ptr, p: Ptr)
    requires Settled(mem, shape, newRoot, f, t, NodePtr(o), slot, mem', shape', newRoot', p)
    ensures SlotOk(mem', shape', p, t, NodePtr(o), slot)
  {
  }

  lemma LowerFrames(g: Job, mem: Mem, shape: Shape, stack: Stack, newRoot: Ptr)
    requires stack != [] && FramesOk(g, mem, shape, stack, newRoot) && Apart(stack)
    ensures FramesOk(g, mem, shape, stack[..|stack| - 1], newRoot) && Apart(stack[..|stack| - 1])
  {
    var n := |stack| - 1;
    var lower := stack[..n];
    hide Own;
    hide SrcOk;
    hide SrcLink;
    hide DstLink;
    hide Traverse.Filled;
    forall k | 0 <= k < n ensures FrameOk(g, mem, shape, lower, k, newRoot) {
      assert FrameOk(g, mem, shape, stack, k, newRoot);
      assert lower[k] == stack[k] && (k > 0 ==> lower[k - 1] == stack[k - 1]);
    }
  }

  lemma UntouchedStays(g: Job, mem: Mem, shape: Shape, stack: Stack, mem1: Mem, shape1: Shape,
                       mem': Mem, shape': Shape, newRoot: Ptr, newRoot': Ptr, t: Tree, p: Ptr)
    requires stack != [] && Inv(g, mem, shape, stack, newRoot)
    requires var n := |stack| - 1; var f := stack[n];
      && OnlyFolded(mem, shape, mem1, shape1, f.dst)
      && Settled(mem1, shape1, newRoot, f, t, DstOwner(stack, n), OwnerSlot(stack, n), mem', shape', newRoot', p)
    ensures Untouched(g, mem')
  {
    hide FrameOk;
    hide Closed;
    hide Attached;
    hide Own;
    var n := |stack| - 1;
    OwnDst(stack[n]);
    if n > 0 {
      OwnDst(stack[n - 1]);
    }
    forall a | a in g.mem ensures SameCell(g.mem, mem', a) {
      assert SameCell(mem, mem1, a);
      assert Foreign(mem1, shape1, stack[n], DstOwner(stack, n), a);
    }
  }
}
