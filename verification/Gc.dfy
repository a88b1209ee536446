/** The collection itself: the walk over the old tree that builds the compacted new
    one. It takes no stack and no recursion; the memory is a map from addresses to
    cells, so reading a released cell, or releasing one twice, is an error. */
module Gc {
  import opened AssocTree
  import opened Compress
  import opened Collect
  import opened NormalForm
  import opened Snag
  import opened Memory
  import opened Heap
  import opened CompressNode
  import opened Traverse
  import opened Excise
  import opened Steps
  import opened Reach

  /** Where the next copy's pointer is to be stored. */
  datatype Place = RootVariable | SlotOf(node: Addr, slot: nat) | NextOf(skip: Addr)

  datatype Outcome = Collected | NoMemory | Bug

  // ----- entering a subtree

  /** Some address is not in use. */
  lemma {:induction false} SomeFresh(s: set<Addr>) returns (a: Addr)
    ensures a !in s
    ensures forall x :: x in s ==> x < a
    decreases s
  {
    if s == {} {
      a := 0;
    } else {
      var x :| x in s;
      a := SomeFresh(s - {x});
      a := if a > x then a else x + 1;
      assert forall y :: y in s ==> y == x || y in s - {x};
    }
  }

  /** An address the allocator may return: any that is not in use. */
  method Allocate(mem: Mem) returns (a: Addr)
    ensures a !in mem
  {
    ghost var w := SomeFresh(mem.Keys);
    a :| a !in mem;
  }

  /** The first `n` requests for memory are granted. */
  ghost predicate Granted(grants: nat -> bool, n: nat) {
    forall k :: 0 <= k < n ==> grants(k)
  }

  lemma GrantedFewer(grants: nat -> bool, m: nat, n: nat)
    requires m <= n
    ensures Granted(grants, n) ==> Granted(grants, m)
  {
  }

  lemma GrantedNext(grants: nat -> bool, n: nat)
    requires Granted(grants, n)
    ensures Granted(grants, n + 1) <==> grants(n)
  {
  }

  function BlankSlots(): (r: seq<Ptr>)
    ensures |r| == FAN_OUT && forall i :: 0 <= i < FAN_OUT ==> r[i] == Null
  {
    seq(FAN_OUT, (_: nat) => Null)
  }

  function Store(mem: Mem, place: Place, p: Ptr): Mem
    requires place.SlotOf? ==> place.node in mem && mem[place.node].NodeCell? && place.slot < |mem[place.node].slots|
    requires place.NextOf? ==> place.skip in mem && mem[place.skip].ShortcutCell?
  {
    match place
    case RootVariable => mem
    case SlotOf(n, i) => SetSlot(mem, n, i, p)
    case NextOf(s) => mem[s := mem[s].(next := p)]
  }

  /** The machine's registers fit its ghost stack just before entering a subtree. */
  ghost predicate AtDescent(g: Job, mem: Mem, shape: Shape, stack: Stack, newRoot: Ptr, cursor: Ptr, newParent: Ptr,
                            place: Place, t: Tree) {
    && Inv(g, mem, shape, stack, newRoot) && Pending(g, stack, cursor, t)
    && if stack == [] then newParent == Null && place == RootVariable
       else
         var f := stack[|stack| - 1];
         && newParent == NodePtr(f.dst) && place == SlotOf(f.dst, f.slot) && f.slot < FAN_OUT
         && f.dst in mem && mem[f.dst].NodeCell? && |mem[f.dst].slots| == FAN_OUT
         && mem[f.dst].slots[f.slot] == Null
  }

  function SeenSoFar(stack: Stack): seq<Obj>
    requires stack != [] ==> stack[|stack| - 1].slot <= |stack[|stack| - 1].ss|
  {
    if stack == [] then [] else SeenBefore(stack[|stack| - 1], stack[|stack| - 1].slot)
  }

  /** The frame for a node entered at the cursor. */
  function NewFrame(stack: Stack, node: Addr, t: Tree, via: Via, newN: Addr): Frame
    requires t.Node? || (t.Shortcut? && t.target.Node?)
    requires stack != [] ==> stack[|stack| - 1].slot <= |stack[|stack| - 1].ss|
  {
    Frame(node, if t.Node? then t.slots else t.target.slots, SeenSoFar(stack), via, newN, 0)
  }

  function RootAfter(newRoot: Ptr, place: Place, p: Ptr): Ptr {
    if place.RootVariable? then p else newRoot
  }

  /** What the registers say before entering a subtree. */
  lemma DescentFacts(g: Job, mem: Mem, shape: Shape, stack: Stack, newRoot: Ptr, cursor: Ptr, newParent: Ptr,
                     place: Place, t: Tree)
    requires AtDescent(g, mem, shape, stack, newRoot, cursor, newParent, place, t)
    ensures IsMeta(t) && WellFormed(t) && Untouched(g, mem)
    ensures IsMetaPtr(cursor) && cursor.addr in g.mem && cursor.addr in mem && mem[cursor.addr] == g.mem[cursor.addr]
    ensures cursor.ShortcutPtr? <==> t.Shortcut?
    ensures cursor.NodePtr? ==> g.mem[cursor.addr].NodeCell?
    ensures cursor.ShortcutPtr? ==>
      && g.mem[cursor.addr].ShortcutCell? && g.mem[cursor.addr].skip == t.skip && t.target.Node?
      && var q := g.mem[cursor.addr].next;
      && q.NodePtr? && q.addr in g.mem && q.addr in mem && mem[q.addr] == g.mem[q.addr] && g.mem[q.addr].NodeCell?
    ensures !place.NextOf?
    ensures stack == [] <==> place.RootVariable?
    ensures stack != [] ==>
      var f := stack[|stack| - 1];
      && place == SlotOf(f.dst, f.slot) && f.slot < |f.ss|
      && f.dst in mem && mem[f.dst].NodeCell? && f.slot < |mem[f.dst].slots|
  {
    hide FrameOk;
    hide Closed;
    hide Attached;
    var owner := if stack == [] then Null else NodePtr(stack[|stack| - 1].src);
    var slot := if stack == [] then 0 else stack[|stack| - 1].slot;
    HoldsInMem(g, cursor, t, owner, slot);
  }

  lemma PushedDirect(g: Job, mem: Mem, shape: Shape, stack: Stack, newRoot: Ptr, cursor: Ptr, newParent: Ptr,
                     place: Place,
                     t: Tree, newN: Addr)
    requires AtDescent(g, mem, shape, stack, newRoot, cursor, newParent, place, t) && cursor.NodePtr?
    requires newN !in mem && cursor.addr in mem && mem[cursor.addr].NodeCell? && t.Node?
    requires stack != [] ==> stack[|stack| - 1].slot <= |stack[|stack| - 1].ss|
    requires place.SlotOf? ==> place.node in mem && mem[place.node].NodeCell? && place.slot < |mem[place.node].slots|
    requires !place.NextOf?
    ensures Pushed(g, mem, stack, newRoot,
                   Store(mem[newN := NodeCell(newParent, mem[cursor.addr].parentSlot, BlankSlots(), 0)], place,
                         NodePtr(newN)),
                   RootAfter(newRoot, place, NodePtr(newN)), NewFrame(stack, cursor.addr, t, Direct, newN))
  {
    hide FrameOk;
    hide Closed;
    hide Attached;
    hide Inside;
    hide Partition;
    var owner := if stack == [] then Null else NodePtr(stack[|stack| - 1].src);
    var slot := if stack == [] then 0 else stack[|stack| - 1].slot;
    HoldsInMem(g, cursor, t, owner, slot);
    hide Holds;
    hide WellFormed;
    var f := NewFrame(stack, cursor.addr, t, Direct, newN);
    var stack' := stack + [f];
    assert stack'[|stack|] == f;
    assert Nested(g, stack', |stack|);
    assert SrcOk(g, f);
  }

  lemma PushedThrough(g: Job, mem: Mem, shape: Shape, stack: Stack, newRoot: Ptr, cursor: Ptr, newParent: Ptr,
                      place: Place,
                      t: Tree, newS: Addr, mem1: Mem, newN: Addr)
    requires AtDescent(g, mem, shape, stack, newRoot, cursor, newParent, place, t) && cursor.ShortcutPtr?
    requires newS !in mem && cursor.addr in mem && mem[cursor.addr].ShortcutCell? && t.Shortcut? && t.target.Node?
    requires stack != [] ==> stack[|stack| - 1].slot <= |stack[|stack| - 1].ss|
    requires place.SlotOf? ==> place.node in mem && mem[place.node].NodeCell? && place.slot < |mem[place.node].slots|
    requires !place.NextOf?
    requires var c := mem[cursor.addr];
      mem1 == Store(mem[newS := ShortcutCell(newParent, c.parentSlot, c.skip, c.next)], place, ShortcutPtr(newS))
    requires newN !in mem1
    requires var q := mem[cursor.addr].next; q.NodePtr? && q.addr in mem1 && mem1[q.addr].NodeCell?
    ensures newS in mem1 && mem1[newS].ShortcutCell?
    ensures var c := mem[cursor.addr]; var q := c.next;
      Pushed(g, mem, stack, newRoot,
             Store(mem1[newN := NodeCell(ShortcutPtr(newS), mem1[q.addr].parentSlot, BlankSlots(), 0)],
                   NextOf(newS), NodePtr(newN)),
             RootAfter(newRoot, place, ShortcutPtr(newS)),
             NewFrame(stack, q.addr, t, Through(cursor.addr, t.skip, newS), newN))
  {
    hide FrameOk;
    hide Closed;
    hide Attached;
    hide Inside;
    hide Partition;
    var owner := if stack == [] then Null else NodePtr(stack[|stack| - 1].src);
    var slot := if stack == [] then 0 else stack[|stack| - 1].slot;
    HoldsInMem(g, cursor, t, owner, slot);
    hide Holds;
    hide WellFormed;
    var q := mem[cursor.addr].next;
    var f := NewFrame(stack, q.addr, t, Through(cursor.addr, t.skip, newS), newN);
    var stack' := stack + [f];
    assert stack'[|stack|] == f;
    assert Whole(f) == t;
    assert Nested(g, stack', |stack|);
    assert SrcOk(g, f);
  }

  /** Storing the pointer to a new cell writes to the new tree only. */
  lemma StoreUntouched(g: Job, mem: Mem, shape: Shape, stack: Stack, newRoot: Ptr, cursor: Ptr, newParent: Ptr,
                       place: Place,
                       t: Tree, a: Addr, c: Cell, p: Ptr)
    requires AtDescent(g, mem, shape, stack, newRoot, cursor, newParent, place, t) && a !in mem && !place.NextOf?
    requires place.SlotOf? ==> place.node in mem && mem[place.node].NodeCell? && place.slot < |mem[place.node].slots|
    ensures Untouched(g, Store(mem[a := c], place, p))
  {
    hide FrameOk;
    hide Closed;
    hide Attached;
    hide Inside;
    if stack != [] {
      OwnDst(stack[|stack| - 1]);
    }
  }

  /** Duplicates the shortcut, if any, and the node at the cursor. `grants` tells which
      requests for memory are granted, `asked` counts them. */
  method Descend(mem0: Mem, newRoot0: Ptr, cursor0: Ptr, newParent0: Ptr, place0: Place, grants: nat -> bool,
                 asked0: nat,
                 ghost g: Job, ghost shape: Shape, ghost stack: Stack, ghost t: Tree)
    returns (ok: bool, mem: Mem, newRoot: Ptr, node: Addr, newN: Addr, asked: nat, ghost f: Frame)
    requires AtDescent(g, mem0, shape, stack, newRoot0, cursor0, newParent0, place0, t)
    requires Granted(grants, asked0)
    ensures !ok ==> Untouched(g, mem) && !Granted(grants, asked0 + if t.Shortcut? then 2 else 1)
    ensures ok ==> Granted(grants, asked) && asked == asked0 + Cost(f.via)
    ensures ok ==>
      && Inv(g, mem, shape, stack + [f], newRoot) && f.slot == 0 && Whole(f) == t
      && (stack != [] ==> stack[|stack| - 1].slot <= |stack[|stack| - 1].ss|) && f.seen == SeenSoFar(stack)
      && f.src == node && f.dst == newN && newN in mem && Blank(mem[newN])
  {
    DescentFacts(g, mem0, shape, stack, newRoot0, cursor0, newParent0, place0, t);
    hide Pushed;
    hide Inv;
    hide Pending;
    hide WellFormed;
    hide Granted;
    hide Untouched;
    mem, newRoot, asked := mem0, newRoot0, asked0;
    var cursor, newParent, place := cursor0, newParent0, place0;
    node, newN, f := 0, 0, Frame(0, [], [], Direct, 0, 0);
    ghost var via := Direct;
    if cursor.ShortcutPtr? {
      var s := cursor.addr;
      GrantedNext(grants, asked);
      if !grants(asked) {
        GrantedFewer(grants, asked + 1, asked + 2);
        ok := false;
        return;
      }
      asked := asked + 1;
      var newS := Allocate(mem);
      StoreUntouched(g, mem0, shape, stack, newRoot0, cursor0, newParent0, place0, t, newS,
                     ShortcutCell(newParent, mem[s].parentSlot, mem[s].skip, mem[s].next), ShortcutPtr(newS));
      mem := mem[newS := ShortcutCell(newParent, mem[s].parentSlot, mem[s].skip, mem[s].next)];
      mem := Store(mem, place, ShortcutPtr(newS));
      newRoot := RootAfter(newRoot, place, ShortcutPtr(newS));
      newParent := ShortcutPtr(newS);
      place := NextOf(newS);
      cursor := mem[s].next;
      via := Through(s, t.skip, newS);
    }
    node := cursor.addr;
    GrantedNext(grants, asked);
    if !grants(asked) {
      ok := false;
      return;
    }
    asked := asked + 1;
    newN := Allocate(mem);
    ghost var mem1 := mem;
    mem := mem[newN := NodeCell(newParent, mem[node].parentSlot, BlankSlots(), 0)];
    mem := Store(mem, place, NodePtr(newN));
    newRoot := RootAfter(newRoot, place, NodePtr(newN));
    ok := true;
    f := NewFrame(stack, node, t, via, newN);
    if via.Direct? {
      PushedDirect(g, mem0, shape, stack, newRoot0, cursor0, newParent0, place0, t, newN);
    } else {
      PushedThrough(g, mem0, shape, stack, newRoot0, cursor0, newParent0, place0, t, via.dstSkip, mem1, newN);
    }
    PushInv(g, mem0, shape, stack, newRoot0, mem, newRoot, f);
  }

  lemma HoldsInMem(g: Job, p: Ptr, t: Tree, owner: Ptr, slot: nat)
    requires Holds(g.mem, p, t, owner, slot) && IsMeta(t) && WellFormed(t)
    ensures IsMetaPtr(p) && p.addr in g.mem && (p.ShortcutPtr? <==> t.Shortcut?)
    ensures p.NodePtr? ==>
      && g.mem[p.addr].NodeCell? && Hangs(g.mem[p.addr], owner, slot) && |g.mem[p.addr].slots| == FAN_OUT
      && AllWellFormed(t.slots)
      && forall i :: 0 <= i < FAN_OUT ==> Holds(g.mem, g.mem[p.addr].slots[i], t.slots[i], p, i)
    ensures p.ShortcutPtr? ==>
      && g.mem[p.addr].ShortcutCell? && Hangs(g.mem[p.addr], owner, slot) && g.mem[p.addr].skip == t.skip
      && var q := g.mem[p.addr].next;
      && q.NodePtr? && q.addr in g.mem && g.mem[q.addr].NodeCell? && g.mem[q.addr].back == p
      && |g.mem[q.addr].slots| == FAN_OUT && t.target.Node? && AllWellFormed(t.target.slots)
      && forall i :: 0 <= i < FAN_OUT ==> Holds(g.mem, g.mem[q.addr].slots[i], t.target.slots[i], q, i)
  {
    if t.Shortcut? {
      assert WellFormed(t.target);
      assert Holds(g.mem, g.mem[p.addr].next, t.target, p, 0);
    }
  }

  // ----- the main loop

  /** The registers fit the ghost stack at the top of the loop over slots. */
  ghost predicate AtNode(g: Job, mem: Mem, shape: Shape, stack: Stack, newRoot: Ptr,
                         node: Addr, newN: Addr, slot: nat, newParent: Ptr, log: seq<Obj>) {
    && Inv(g, mem, shape, stack, newRoot) && stack != [] && Clear(g, stack)
    && var f := stack[|stack| - 1];
    && f.src == node && f.dst == newN && f.slot == slot <= FAN_OUT && newParent == NodePtr(newN)
    && AllWellFormed(f.ss) && log == SeenSoFar(stack)
    && newN in mem && mem[newN].NodeCell? && |mem[newN].slots| == FAN_OUT
    && (forall k :: slot <= k < FAN_OUT ==> mem[newN].slots[k] == Null)
  }

  /** The old slot the machine looks at. */
  lemma OldSlot(g: Job, mem: Mem, shape: Shape, stack: Stack, newRoot: Ptr,
                node: Addr, newN: Addr, slot: nat, newParent: Ptr, log: seq<Obj>)
    requires AtNode(g, mem, shape, stack, newRoot, node, newN, slot, newParent, log) && slot < FAN_OUT
    ensures var f := stack[|stack| - 1];
      && node in mem && mem[node].NodeCell? && |mem[node].slots| == FAN_OUT
      && WellFormed(f.ss[slot]) && Mirror(mem[node].slots[slot], f.ss[slot])
      && Holds(g.mem, mem[node].slots[slot], f.ss[slot], NodePtr(node), slot)
  {
    hide Traverse.Filled;
    hide Closed;
    hide Attached;
    hide DstLink;
    TopFrame(g, mem, shape, stack, newRoot);
    MirrorHolds(g.mem, g.mem[node].slots[slot], stack[|stack| - 1].ss[slot], NodePtr(node), slot);
  }

  lemma MirrorHolds(mem: Mem, p: Ptr, t: Tree, owner: Ptr, slot: nat)
    requires Holds(mem, p, t, owner, slot)
    ensures Mirror(p, t)
  {
  }

  lemma SeenNext(stack: Stack, slot: nat)
    requires stack != [] && stack[|stack| - 1].slot == slot < |stack[|stack| - 1].ss|
    ensures SeenSoFar(Advanced(stack)) == SeenSoFar(stack) + Leaves(stack[|stack| - 1].ss[slot])
  {
    Fold.LeavesOfNext(stack[|stack| - 1].ss, slot);
  }

  lemma ClearNext(g: Job, stack: Stack)
    requires stack != [] && Clear(g, stack) && AllWellFormed(stack[|stack| - 1].ss)
    requires var f := stack[|stack| - 1]; f.slot < FAN_OUT && !Trapped(Sifted(g, f)[f.slot])
    ensures Clear(g, Advanced(stack))
  {
    hide Trapped;
    var n := |stack| - 1;
    var stack' := Advanced(stack);
    assert Sifted(g, stack'[n]) == Sifted(g, stack[n]);
    hide Sifted;
    forall k, i | 0 <= k < |stack'| && AllWellFormed(stack'[k].ss) && 0 <= i < stack'[k].slot && i < FAN_OUT
      ensures !Trapped(Sifted(g, stack'[k])[i])
    {
      if k < n {
        assert stack'[k] == stack[k];
      }
    }
  }

  lemma ClearPushed(g: Job, stack: Stack, f: Frame)
    requires Clear(g, stack) && f.slot == 0
    ensures Clear(g, stack + [f])
  {
    hide Trapped;
    hide Sifted;
    var stack' := stack + [f];
    forall k, i | 0 <= k < |stack'| && AllWellFormed(stack'[k].ss) && 0 <= i < stack'[k].slot && i < FAN_OUT
      ensures !Trapped(Sifted(g, stack'[k])[i])
    {
      assert stack'[k] == if k < |stack| then stack[k] else f;
    }
  }

  lemma ClearPopped(g: Job, stack: Stack)
    requires stack != [] && Clear(g, stack)
    ensures Clear(g, stack[..|stack| - 1])
  {
    hide Trapped;
    hide Sifted;
  }

  /** What the iterator's answer makes of a slot that holds no subtree. */
  lemma FlatGoal(g: Job, f: Frame)
    requires AllWellFormed(f.ss) && f.slot < FAN_OUT && !IsMeta(f.ss[f.slot])
    ensures var t := f.ss[f.slot];
      && !Trapped(Sifted(g, f)[f.slot])
      && Goal(g, f)[f.slot] == (if t.Leaf? && g.iter(SeenBefore(f, f.slot), t.obj) then t else Empty)
  {
    GoalAt(g, f, f.slot);
  }

  /** Looks at one slot of the old node that holds no subtree. */
  method FilterSlot(mem0: Mem, newRoot: Ptr, node: Addr, newN: Addr, slot: nat, newParent: Ptr, log0: seq<Obj>,
                    iter: Iterator,
                    ghost g: Job, ghost shape: Shape, ghost stack: Stack)
    returns (mem: Mem, log: seq<Obj>)
    requires AtNode(g, mem0, shape, stack, newRoot, node, newN, slot, newParent, log0) && slot < FAN_OUT
    requires g.iter == iter
    requires node in mem0 && mem0[node].NodeCell? && slot < |mem0[node].slots| && !IsMetaPtr(mem0[node].slots[slot])
    ensures Inv(g, mem, shape, Advanced(stack), newRoot) && Clear(g, Advanced(stack))
    ensures log == SeenSoFar(Advanced(stack))
    ensures newN in mem && mem[newN].NodeCell? && |mem[newN].slots| == FAN_OUT
    ensures forall k :: slot < k < FAN_OUT ==> mem[newN].slots[k] == Null
  {
    hide Inv;
    hide Clear;
    hide Goal;
    hide Sifted;
    hide Trapped;
    hide SeenBefore;
    mem, log := mem0, log0;
    ghost var f := stack[|stack| - 1];
    OldSlot(g, mem, shape, stack, newRoot, node, newN, slot, newParent, log);
    FlatGoal(g, f);
    SeenNext(stack, slot);
    ClearNext(g, stack);
    var ptr := mem[node].slots[slot];
    var kept := Null;
    if ptr.LeafPtr? {
      var accept := iter(log, ptr.obj);
      log := log + [ptr.obj];
      if accept {
        kept := ptr;
      }
    }
    PassSlot(g, mem0, shape, stack, newRoot, SetSlot(mem0, newN, slot, kept), kept);
    if kept != Null {
      mem := SetSlot(mem, newN, slot, kept);
    } else {
      assert mem[newN].slots[slot := Null] == mem[newN].slots;
      assert mem == SetSlot(mem0, newN, slot, Null);
    }
  }

  lemma DescentReady(g: Job, mem: Mem, shape: Shape, stack: Stack, newRoot: Ptr,
                     node: Addr, newN: Addr, slot: nat, newParent: Ptr, log: seq<Obj>)
    requires AtNode(g, mem, shape, stack, newRoot, node, newN, slot, newParent, log) && slot < FAN_OUT
    requires node in mem && mem[node].NodeCell? && slot < |mem[node].slots| && IsMetaPtr(mem[node].slots[slot])
    ensures AtDescent(g, mem, shape, stack, newRoot, mem[node].slots[slot], newParent, SlotOf(newN, slot),
                      stack[|stack| - 1].ss[slot])
  {
    OldSlot(g, mem, shape, stack, newRoot, node, newN, slot, newParent, log);
    hide Inv;
  }

  lemma EntersNode(g: Job, mem: Mem, shape: Shape, stack: Stack, newRoot: Ptr, f: Frame, log: seq<Obj>)
    requires Inv(g, mem, shape, stack + [f], newRoot) && Clear(g, stack) && f.slot == 0
    requires f.dst in mem && Blank(mem[f.dst]) && log == f.seen
    ensures AtNode(g, mem, shape, stack + [f], newRoot, f.src, f.dst, 0, NodePtr(f.dst), log)
  {
    var stack' := stack + [f];
    ClearPushed(g, stack, f);
    TopFrame(g, mem, shape, stack', newRoot);
    assert stack'[|stack|] == f;
    assert f.ss[..0] == [];
  }

  // ----- leaving a node

  /** Where the old node's back pointer and parent slot lead. */
  lemma OldOwner(g: Job, mem: Mem, shape: Shape, stack: Stack, newRoot: Ptr, mem': Mem)
    requires stack != [] && Inv(g, mem, shape, stack, newRoot) && Untouched(g, mem')
    ensures var n := |stack| - 1; var f := stack[n];
      && f.src in mem' && mem'[f.src].NodeCell?
      && (f.via.Direct? ==> Hangs(mem'[f.src], SrcOwner(stack, n), OwnerSlot(stack, n)))
      && (f.via.Through? ==>
            && mem'[f.src].back.ShortcutPtr? && mem'[f.src].back.addr in mem'
            && mem'[mem'[f.src].back.addr].ShortcutCell?
            && Hangs(mem'[mem'[f.src].back.addr], SrcOwner(stack, n), OwnerSlot(stack, n)))
  {
    TopFrame(g, mem, shape, stack, newRoot);
  }

  /** The handed-up tree is the goal of the slot below. */
  lemma HandedIsGoal(g: Job, stack: Stack)
    requires |stack| > 1
    requires var n := |stack| - 1; AllWellFormed(stack[n].ss) && AllWellFormed(stack[n - 1].ss) && Nested(g, stack, n)
    ensures var n := |stack| - 1; var f := stack[n - 1];
      && f.slot < FAN_OUT
      && Handed(stack[n].via, Compress.Compress(Goal(g, stack[n]))) == Goal(g, f)[f.slot]
      && Sifted(g, f)[f.slot] == Filter(Whole(stack[n]), g.iter, stack[n].seen)
      && SeenSoFar(stack[..n]) == stack[n].seen
  {
    var n := |stack| - 1;
    HandedIsCompact(g, stack[n]);
    GoalAt(g, stack[n - 1], stack[n - 1].slot);
    assert stack[..n][|stack[..n]| - 1] == stack[n - 1];
  }

  datatype Status = Onward | Complete | Trap

  /** The whole filtered tree compacted: what the new root is to hold. */
  function Result(g: Job): (t: Tree)
    requires WellFormed(g.tree)
    ensures WellFormed(Filter(g.tree, g.iter, []))
  {
    FilterWellFormed(g.tree, g.iter, []);
    Compact(Filter(g.tree, g.iter, []))
  }

  /** The collection succeeded: the new root holds the result, no cell was lost, and
      the old tree is intact. */
  ghost predicate Delivered(g: Job, mem: Mem, root: Ptr)
    requires WellFormed(g.tree)
  {
    && Untouched(g, mem) && Holds(mem, root, Result(g), Null, 0) && Counted(mem, root, Result(g))
    && (forall a :: a in mem <==> a in g.mem || Reaches(mem, root, Result(g), a))
    && (forall a :: Reaches(mem, root, Result(g), a) ==> a !in g.mem)
  }

  /** Each node's count is the number of leaves on its branch. */
  ghost predicate Counted(mem: Mem, p: Ptr, t: Tree)
    decreases t
  {
    match t
    case Empty => true
    case Leaf(_) => true
    case Node(ss) =>
      && p.NodePtr? && p.addr in mem && mem[p.addr].NodeCell? && |mem[p.addr].slots| == |ss|
      && mem[p.addr].branch == |LeavesOf(ss)|
      && forall i :: 0 <= i < |ss| ==> Counted(mem, mem[p.addr].slots[i], ss[i])
    case Shortcut(_, c) =>
      p.ShortcutPtr? && p.addr in mem && mem[p.addr].ShortcutCell? && Counted(mem, mem[p.addr].next, c)
  }

  lemma {:induction false} ClosedCounted(mem: Mem, shape: Shape, p: Ptr, t: Tree)
    requires Closed(mem, shape) && Mirror(p, t)
    requires IsMetaPtr(p) ==> p.addr in shape && shape[p.addr] == t
    ensures Counted(mem, p, t)
    decreases t
  {
    hide LeavesOf;
    if IsMetaPtr(p) {
      var a := p.addr;
      assert CellOk(mem, shape, a);
      match t
      case Node(ss) =>
        forall i | 0 <= i < |ss| ensures Counted(mem, mem[a].slots[i], ss[i]) {
          assert SlotOk(mem, shape, mem[a].slots[i], ss[i], NodePtr(a), i);
          ClosedCounted(mem, shape, mem[a].slots[i], ss[i]);
        }
      case Shortcut(_, c) =>
        ClosedCounted(mem, shape, mem[a].next, c);
    }
  }

  /** At the root, every new cell is reached from it. */
  lemma RootReached(g: Job, mem: Mem, shape: Shape, p: Ptr, t: Tree)
    requires Closed(mem, shape) && Attached(mem, shape) && mem.Keys == g.mem.Keys + shape.Keys &&
        g.mem.Keys !! shape.Keys
    requires IsMetaPtr(p) && Mirror(p, t) && p.addr in shape && shape[p.addr] == t
    requires forall a :: a in shape && a in mem && a != p.addr ==> IsMetaPtr(mem[a].back) && mem[a].back.addr !in g.mem
    ensures forall a :: a in mem <==> a in g.mem || Reaches(mem, p, t, a)
    ensures forall a :: Reaches(mem, p, t, a) ==> a !in g.mem
  {
    hide CellOk;
    hide Reaches;
    hide AttachedAt;
    ShapeInMem(mem, shape);
    forall a | a in shape && a != p.addr
      ensures IsMetaPtr(mem[a].back) && mem[a].back.addr in shape
    {
      AttachedOwner(mem, a);
    }
    AllReached(mem, shape, p, t);
  }

  lemma RootPartition(g: Job, mem: Mem, shape: Shape, stack: Stack, newRoot: Ptr, mem1: Mem, shape1: Shape,
                      mem': Mem, shape': Shape, newRoot': Ptr, p: Ptr, t: Tree)
    requires |stack| == 1 && Inv(g, mem, shape, stack, newRoot) && Closed(mem1, shape1)
    requires OnlyFolded(mem, shape, mem1, shape1, stack[0].dst)
    requires Settled(mem1, shape1, newRoot, stack[0], t, Null, 0, mem', shape', newRoot', p)
    ensures mem'.Keys == g.mem.Keys + shape'.Keys && g.mem.Keys !! shape'.Keys
  {
    hide FrameOk;
    hide CellOk;
    hide AttachedAt;
    hide Spared;
    hide Housed;
    var f := stack[0];
    OwnDst(f);
    hide Own;
    ShapeInMem(mem, shape);
    ShapeInMem(mem1, shape1);
    KeysComposed(mem, shape, mem1, shape1, mem', shape', f.dst, Own(f));
    PartitionPopped(g, mem, shape, stack, mem', shape');
    assert OpenCells(stack[..0]) == {};
  }

  /** At the root, what is finished is the result. */
  lemma RootDelivered(g: Job, mem: Mem, shape: Shape, stack: Stack, newRoot: Ptr, mem1: Mem, shape1: Shape,
                      mem': Mem, shape': Shape, newRoot': Ptr, p: Ptr)
    requires |stack| == 1 && Inv(g, mem, shape, stack, newRoot) && Closed(mem1, shape1) && WellFormed(g.tree)
    requires OnlyFolded(mem, shape, mem1, shape1, stack[0].dst)
    requires Settled(mem1, shape1, newRoot, stack[0], Result(g), Null, 0, mem', shape', newRoot', p)
    ensures Delivered(g, mem', newRoot')
  {
    hide FrameOk;
    hide FramesOk;
    hide Partition;
    hide CellOk;
    hide AttachedAt;
    hide Result;
    hide OnlyFolded;
    hide Spared;
    hide Housed;
    hide Holds;
    hide Counted;
    hide Reaches;
    hide WellFormed;
    var t := Result(g);
    UntouchedStays(g, mem, shape, stack, mem1, shape1, mem', shape', newRoot, newRoot', t, p);
    InsidePopped(g, mem, shape, stack, mem1, shape1, newRoot, newRoot', t, mem', shape', p);
    RootPartition(g, mem, shape, stack, newRoot, mem1, shape1, mem', shape', newRoot', p, t);
    ClosedHolds(mem', shape', p, t, Null, 0);
    ClosedCounted(mem', shape', p, t);
    RootReached(g, mem', shape', p, t);
  }

  lemma AttachedOwner(mem: Mem, a: Addr)
    requires a in mem && AttachedAt(mem, a)
    ensures IsMetaPtr(mem[a].back) ==> mem[a].back.addr in mem
  {
  }

  /** The frame below takes over. */
  lemma BackAtNode(g: Job, mem: Mem, shape: Shape, stack: Stack, newRoot: Ptr, mem1: Mem, shape1: Shape,
                   mem': Mem, shape': Shape, newRoot': Ptr, p: Ptr, log: seq<Obj>)
    requires |stack| > 1 && Inv(g, mem, shape, stack, newRoot) && Clear(g, stack) && Closed(mem1, shape1)
    requires var n := |stack| - 1; var f := stack[n];
      && f.slot == FAN_OUT && AllWellFormed(f.ss) && log == SeenSoFar(stack)
      && OnlyFolded(mem, shape, mem1, shape1, f.dst) && !CompressTraps(Goal(g, f))
      && Settled(mem1, shape1, newRoot, f, Handed(f.via, Compress.Compress(Goal(g, f))),
                 DstOwner(stack, n), OwnerSlot(stack, n), mem', shape', newRoot', p)
    ensures var stack' := Advanced(stack[..|stack| - 1]); var f := stack'[|stack'| - 1];
      AtNode(g, mem', shape', stack', newRoot', f.src, f.dst, f.slot, NodePtr(f.dst), log)
  {
    hide Closed;
    hide Attached;
    hide OnlyFolded;
    hide CompressTraps;
    hide SrcOk;
    hide SrcLink;
    hide DstLink;
    hide SlotOk;
    hide Sifted;
    hide Goal;
    hide Trapped;
    hide Own;
    hide Clear;
    var n := |stack| - 1;
    var lower := stack[..n];
    TopFrame(g, mem, shape, stack, newRoot);
    assert lower[n - 1] == stack[n - 1];
    ClearBack(g, stack);
    HandedIsGoal(g, stack);
    PopInv(g, mem, shape, stack, newRoot, mem1, shape1, mem', shape', newRoot', p);
    SparedByPop(g, mem, shape, stack, newRoot, mem1, shape1, Goal(g, stack[n - 1])[stack[n - 1].slot],
                mem', shape', newRoot', p);
  }

  /** No assertion failed in the frame below, and its leaves were presented. */
  lemma ClearBack(g: Job, stack: Stack)
    requires |stack| > 1 && Clear(g, stack)
    requires var n := |stack| - 1; AllWellFormed(stack[n].ss) && AllWellFormed(stack[n - 1].ss) && Nested(g, stack, n)
    requires var f := stack[|stack| - 1]; f.slot == FAN_OUT && !CompressTraps(Goal(g, f))
    ensures var stack' := Advanced(stack[..|stack| - 1]); Clear(g, stack') && SeenSoFar(stack') == SeenSoFar(stack)
  {
    hide CompressTraps;
    hide Sifted;
    hide Goal;
    hide Trapped;
    hide Clear;
    hide Filter;
    var n := |stack| - 1;
    var lower := stack[..n];
    assert lower[n - 1] == stack[n - 1];
    SeenWhole(stack[n]);
    HandedIsGoal(g, stack);
    AllClear(g, stack);
    ClearPopped(g, stack);
    ClearNext(g, lower);
    SeenNext(lower, stack[n - 1].slot);
  }

  lemma SeenWhole(f: Frame)
    requires AllWellFormed(f.ss)
    ensures f.seen + Leaves(Whole(f)) == SeenBefore(f, FAN_OUT)
  {
    assert f.ss[..FAN_OUT] == f.ss;
    assert Leaves(Node(f.ss)) == LeavesOf(f.ss);
  }

  /** With all slots clear and its own passes clean, the node is clear. */
  lemma AllClear(g: Job, stack: Stack)
    requires stack != [] && Clear(g, stack)
    requires var f := stack[|stack| - 1]; f.slot == FAN_OUT && AllWellFormed(f.ss) && !CompressTraps(Goal(g, f))
    ensures var f := stack[|stack| - 1];
      WellFormed(Filter(Whole(f), g.iter, f.seen)) && !Trapped(Filter(Whole(f), g.iter, f.seen))
  {
    hide Trapped;
    hide Sifted;
    hide Goal;
    hide CompressTraps;
    ClearNode(g, stack[|stack| - 1]);
  }

  lemma RootSettled(g: Job, mem: Mem, shape: Shape, stack: Stack, newRoot: Ptr, log: seq<Obj>)
    requires |stack| == 1 && Inv(g, mem, shape, stack, newRoot) && Clear(g, stack) && WellFormed(g.tree)
    requires var f := stack[0];
      f.slot == FAN_OUT && AllWellFormed(f.ss) && log == SeenSoFar(stack) && !CompressTraps(Goal(g, f))
    ensures var f := stack[0];
      Handed(f.via, Compress.Compress(Goal(g, f))) == Result(g) && log == Leaves(g.tree)
    ensures WellFormed(Filter(g.tree, g.iter, [])) && !Trapped(Filter(g.tree, g.iter, []))
  {
    var f := stack[0];
    TopFrame(g, mem, shape, stack, newRoot);
    HandedIsCompact(g, f);
    AllClear(g, stack);
    SeenWhole(f);
  }

  lemma TopTraps(g: Job, mem: Mem, shape: Shape, stack: Stack, newRoot: Ptr)
    requires stack != [] && Inv(g, mem, shape, stack, newRoot)
    requires var f := stack[|stack| - 1]; AllWellFormed(f.ss) && CompressTraps(Goal(g, f))
    ensures WellFormed(Filter(g.tree, g.iter, [])) && Trapped(Filter(g.tree, g.iter, []))
  {
    TrapNode(g, stack[|stack| - 1]);
    hide Trapped;
    hide Goal;
    hide Filter;
    forall j | 0 <= j < |stack| ensures AllWellFormed(stack[j].ss) && Nested(g, stack, j) {
      assert FrameOk(g, mem, shape, stack, j, newRoot);
    }
    TrapUp(g, stack, |stack| - 1);
  }

  lemma GoalCount(g: Job, f: Frame)
    requires AllWellFormed(f.ss)
    ensures |LeavesOf(Goal(g, f))| == Count(Handed(f.via, Compress.Compress(Goal(g, f))))
  {
    HandedIsCompact(g, f);
    WholeFiltered(g, f);
    CompactLeaves(Filter(Whole(f), g.iter, f.seen));
    NodeLeaves(Sifted(g, f));
    CompressFacts(Goal(g, f));
    assert Leaves(Node(Sifted(g, f))) == LeavesOf(Sifted(g, f));
  }

  /** Compresses the node whose slots are done, excises what is redundant, and goes
      back up the old tree. */
  method LeaveNode(mem0: Mem, newRoot0: Ptr, node0: Addr, newN0: Addr, newParent0: Ptr,
                   ghost g: Job, ghost shape0: Shape, ghost stack: Stack, ghost log: seq<Obj>)
    returns (status: Status, mem: Mem, newRoot: Ptr, node: Addr, newN: Addr, slot: nat, newParent: Ptr, count: nat,
             ghost shape: Shape)
    requires AtNode(g, mem0, shape0, stack, newRoot0, node0, newN0, FAN_OUT, newParent0, log) && WellFormed(g.tree)
    ensures status == Trap ==>
      WellFormed(Filter(g.tree, g.iter, [])) && Trapped(Filter(g.tree, g.iter, [])) && Untouched(g, mem)
    ensures status == Complete ==>
      && |stack| == 1 && Delivered(g, mem, newRoot) && count == Count(Result(g)) && log == Leaves(g.tree)
      && !Trapped(Filter(g.tree, g.iter, []))
    ensures status == Onward ==>
      && |stack| > 1 && AtNode(g, mem, shape, Advanced(stack[..|stack| - 1]), newRoot, node, newN, slot, newParent, log)
  {
    hide Trapped;
    hide CompressTraps;
    hide Goal;
    hide Sifted;
    hide Filter;
    hide Compact;
    hide Compress.Compress;
    hide LeavesOf;
    hide Leaves;
    hide Inv;
    hide Open;
    hide Settled;
    hide Ready;
    hide OnlyFolded;
    hide Handed;
    hide Clear;
    hide Delivered;
    hide FrameOk;
    hide WellFormed;
    ghost var n := |stack| - 1;
    ghost var f := stack[n];
    node, newN, slot, newParent, newRoot := node0, newN0, FAN_OUT, newParent0, newRoot0;
    mem, shape, count := mem0, shape0, 0;
    TopOpen(g, mem0, shape0, stack, newRoot0);
    ghost var r := Compress.Compress(Goal(g, f));
    assert Attached(mem0, shape0) by { InvAttached(g, mem0, shape0, stack, newRoot0); }
    var bug, free;
    bug, mem, free, shape := CompressNode.Run(mem0, newN, shape0, Goal(g, f));
    if bug {
      TopTraps(g, mem0, shape0, stack, newRoot0);
      UntouchedFolded(g, mem0, shape0, stack, newRoot0, mem, shape);
      status := Trap;
      return;
    }
    OpenNode(mem, shape, newN, r);
    OpenClosed(mem, shape, newN, r);
    count := mem[newN].branch;
    CompressNormal(Goal(g, f));
    CompressFacts(Goal(g, f));
    GoalCount(g, f);
    TopReady(g, mem0, shape0, stack, newRoot0, mem, shape, r);
    ghost var mem1, shape1 := mem, shape;
    ghost var p;
    var complete, up;
    mem, newRoot, complete, up, shape, p :=
      Finish(mem, newRoot, newN, free, shape, f, r, DstOwner(stack, n), OwnerSlot(stack, n));
    if n == 0 {
      RootSettled(g, mem0, shape0, stack, newRoot0, log);
      RootDelivered(g, mem0, shape0, stack, newRoot0, mem1, shape1, mem, shape, newRoot, p);
    } else {
      BackAtNode(g, mem0, shape0, stack, newRoot0, mem1, shape1, mem, shape, newRoot, p, log);
    }
    if complete {
      status := Complete;
      return;
    }
    UntouchedStays(g, mem0, shape0, stack, mem1, shape1, mem, shape, newRoot0, newRoot, Handed(f.via, r), p);
    OldOwner(g, mem0, shape0, stack, newRoot0, mem);
    var cursor;
    if mem[node].back.ShortcutPtr? {
      var s := mem[node].back.addr;
      slot := mem[s].parentSlot;
      cursor := mem[s].back;
      if cursor == Null {
        status := Complete;
        return;
      }
    } else {
      slot := mem[node].parentSlot;
      cursor := mem[node].back;
    }
    assert cursor != Null;
    node := cursor.addr;
    slot := slot + 1;
    newN := up.addr;
    newParent := up;
    status := Onward;
  }

  lemma UntouchedFolded(g: Job, mem: Mem, shape: Shape, stack: Stack, newRoot: Ptr, mem': Mem, shape': Shape)
    requires stack != [] && Inv(g, mem, shape, stack, newRoot)
    requires OnlyFolded(mem, shape, mem', shape', stack[|stack| - 1].dst)
    ensures Untouched(g, mem')
  {
    hide FrameOk;
    hide Closed;
    hide Attached;
    OwnDst(stack[|stack| - 1]);
    hide Own;
  }

  lemma InvAttached(g: Job, mem: Mem, shape: Shape, stack: Stack, newRoot: Ptr)
    requires Inv(g, mem, shape, stack, newRoot)
    ensures Attached(mem, shape) && Untouched(g, mem)
  {
  }

  // ----- the whole collection

  /** The array's root is empty, or leads to a well-formed tree in memory. */
  ghost predicate ValidJob(g: Job) {
    && WellFormed(g.tree) && (g.tree.Empty? || IsMeta(g.tree)) && Holds(g.mem, g.root, g.tree, Null, 0)
  }

  lemma ResultCount(g: Job)
    requires WellFormed(g.tree)
    ensures WellFormed(Filter(g.tree, g.iter, []))
    ensures Count(Result(g)) == |Accepted(Leaves(g.tree), g.iter, [])|
  {
    FilterWellFormed(g.tree, g.iter, []);
    CompactLeaves(Filter(g.tree, g.iter, []));
    FilterLeaves(g.tree, g.iter, []);
  }

  /** Before the first node nothing is finished and nothing open. */
  lemma AtStart(g: Job)
    requires ValidJob(g) && IsMetaPtr(g.root)
    ensures AtDescent(g, g.mem, map[], [], Null, g.root, Null, RootVariable, g.tree)
    ensures Clear(g, [])
  {
    MirrorHolds(g.mem, g.root, g.tree, Null, 0);
  }

  lemma AtNodeParts(g: Job, mem: Mem, shape: Shape, stack: Stack, newRoot: Ptr,
                    node: Addr, newN: Addr, slot: nat, newParent: Ptr, log: seq<Obj>)
    requires AtNode(g, mem, shape, stack, newRoot, node, newN, slot, newParent, log)
    ensures stack != [] && slot <= FAN_OUT && Inv(g, mem, shape, stack, newRoot) && Untouched(g, mem) && Clear(g, stack)
    ensures var f := stack[|stack| - 1]; f.slot == slot && |f.ss| == FAN_OUT && f.dst == newN && log == SeenSoFar(stack)
  {
  }

  lemma PassedSlot(g: Job, mem: Mem, shape: Shape, stack: Stack, newRoot: Ptr, node: Addr, newN: Addr, slot: nat,
                   newParent: Ptr, log: seq<Obj>, mem': Mem, log': seq<Obj>)
    requires AtNode(g, mem, shape, stack, newRoot, node, newN, slot, newParent, log) && slot < FAN_OUT
    requires Inv(g, mem', shape, Advanced(stack), newRoot) && Clear(g, Advanced(stack))
    requires log' == SeenSoFar(Advanced(stack))
    requires newN in mem' && mem'[newN].NodeCell? && |mem'[newN].slots| == FAN_OUT
    requires forall k :: slot < k < FAN_OUT ==> mem'[newN].slots[k] == Null
    ensures AtNode(g, mem', shape, Advanced(stack), newRoot, node, newN, slot + 1, newParent, log')
  {
    hide Inv;
    hide Clear;
  }

  lemma DeliveredUntouched(g: Job, mem: Mem, root: Ptr)
    requires WellFormed(g.tree) && Delivered(g, mem, root)
    ensures Untouched(g, mem)
  {
  }

  /** A subtree's own cells are among those to come. */
  lemma OwedNow(stack: Stack, t: Tree)
    requires stack != []
    requires var f := stack[|stack| - 1]; f.slot < |f.ss| && f.ss[f.slot] == t
    requires IsMeta(t) && WellFormed(t)
    ensures (if t.Shortcut? then 2 else 1) <= Owed(stack)
  {
    CellsOf(t);
  }

  lemma CellsOf(t: Tree)
    requires WellFormed(t)
    ensures IsMeta(t) ==> (if t.Shortcut? then 2 else 1) <= Cells(t)
  {
  }

  /** Handles one slot of the node the machine is in: passes it, or enters the subtree
      it leads to. */
  method VisitSlot(mem0: Mem, newRoot0: Ptr, node0: Addr, newN0: Addr, slot0: nat, newParent0: Ptr, log0: seq<Obj>,
                   iter: Iterator, grants: nat -> bool, asked0: nat, ghost g: Job, ghost shape: Shape,
                       ghost stack0: Stack)
    returns (ok: bool, mem: Mem, newRoot: Ptr, node: Addr, newN: Addr, slot: nat, newParent: Ptr, log: seq<Obj>,
             asked: nat, ghost stack: Stack)
    requires AtNode(g, mem0, shape, stack0, newRoot0, node0, newN0, slot0, newParent0, log0) && slot0 < FAN_OUT
    requires g.iter == iter && Granted(grants, asked0)
    ensures !ok ==> Untouched(g, mem) && !Granted(grants, asked0 + Owed(stack0))
    ensures ok ==>
      && AtNode(g, mem, shape, stack, newRoot, node, newN, slot, newParent, log)
      && Work(stack) < Work(stack0)
      && Granted(grants, asked) && asked + Owed(stack) == asked0 + Owed(stack0)
  {
    OldSlot(g, mem0, shape, stack0, newRoot0, node0, newN0, slot0, newParent0, log0);
    AtNodeParts(g, mem0, shape, stack0, newRoot0, node0, newN0, slot0, newParent0, log0);
    hide *;
    mem, newRoot, node, newN, slot, newParent, log, stack :=
      mem0, newRoot0, node0, newN0, slot0, newParent0, log0, stack0;
    asked := asked0;
    var ptr := mem[node].slots[slot];
    if PassesBy(ptr) {
      mem, log := FilterSlot(mem, newRoot, node, newN, slot, newParent, log, iter, g, shape, stack);
      PassedSlot(g, mem0, shape, stack, newRoot, node, newN, slot, newParent, log0, mem, log);
      WorkAdvances(stack);
      OwedAdvances(stack);
      stack := Advanced(stack);
      slot := slot + 1;
      ok := true;
    } else {
      DescentReady(g, mem, shape, stack, newRoot, node, newN, slot, newParent, log);
      ghost var t := stack[|stack| - 1].ss[slot];
      ghost var f;
      ok, mem, newRoot, node, newN, asked, f :=
        Descend(mem, newRoot, ptr, newParent, SlotOf(newN, slot), grants, asked, g, shape, stack, t);
      if !ok {
        OwedNow(stack, t);
        GrantedFewer(grants, asked0 + (if t.Shortcut? then 2 else 1), asked0 + Owed(stack));
      } else {
        EntersNode(g, mem, shape, stack, newRoot, f, log);
        WorkPushed(stack, f);
        OwedPushed(stack, f);
        stack := stack + [f];
        slot := 0;
        newParent := NodePtr(newN);
      }
    }
  }

  predicate PassesBy(p: Ptr)
    ensures PassesBy(p) <==> !IsMetaPtr(p)
  {
    !IsMetaPtr(p)
  }

  /** What the machine has asked for and what is left to ask for add up to one request
      for the edit and one for each node and shortcut. */
  ghost predicate OnBudget(g: Job, grants: nat -> bool, asked: nat, stack: Stack) {
    Granted(grants, asked) && asked + Owed(stack) == 1 + Cells(g.tree)
  }

  /** Enters the old tree's root. */
  method Enter(mem0: Mem, root0: Ptr, grants: nat -> bool, ghost g: Job)
    returns (ok: bool, mem: Mem, root: Ptr, node: Addr, newN: Addr, asked: nat, ghost stack: Stack)
    requires ValidJob(g) && IsMetaPtr(root0) && g.mem == mem0 && g.root == root0 && grants(0)
    ensures !ok ==> Untouched(g, mem) && !Granted(grants, 1 + Cells(g.tree))
    ensures ok ==> AtNode(g, mem, map[], stack, root, node, newN, 0, NodePtr(newN), [])
    ensures ok ==> OnBudget(g, grants, asked, stack)
  {
    AtStart(g);
    CellsOf(g.tree);
    assert Granted(grants, 1);
    ghost var f;
    stack := [];
    hide *;
    ok, mem, root, node, newN, asked, f :=
      Descend(mem0, Null, root0, Null, RootVariable, grants, 1, g, map[], [], g.tree);
    if !ok {
      GrantedFewer(grants, 1 + (if g.tree.Shortcut? then 2 else 1), 1 + Cells(g.tree));
      return;
    }
    SeenNothing();
    EntersNode(g, mem, map[], [], root, f, []);
    stack := [f];
    assert [] + [f] == stack;
    OwedFirst(f);
    Budget(g, grants, asked, stack);
  }

  lemma Budget(g: Job, grants: nat -> bool, asked: nat, stack: Stack)
    ensures OnBudget(g, grants, asked, stack) <==> Granted(grants, asked) && asked + Owed(stack) == 1 + Cells(g.tree)
  {
  }

  /** The walk, from the old tree's root on. */
  method Walk(mem0: Mem, root0: Ptr, iter: Iterator, grants: nat -> bool, ghost g: Job)
    returns (out: Outcome, mem: Mem, root: Ptr, count: nat, log: seq<Obj>)
    requires ValidJob(g) && IsMetaPtr(root0) && g.mem == mem0 && g.root == root0 && g.iter == iter
    requires WellFormed(g.tree) && WellFormed(Filter(g.tree, iter, [])) && grants(0)
    ensures Untouched(g, mem)
    ensures out == NoMemory ==> !Granted(grants, 1 + Cells(g.tree))
    ensures out == Bug ==> Trapped(Filter(g.tree, iter, []))
    ensures out == Collected ==>
      && !Trapped(Filter(g.tree, iter, [])) && Granted(grants, 1 + Cells(g.tree)) && log == Leaves(g.tree)
      && Delivered(g, mem, root) && count == Count(Result(g))
  {
    hide *;
    ghost var shape: Shape, stack: Stack := map[], [];
    var ok, node, newN, asked;
    count, log := 0, [];
    ok, mem, root, node, newN, asked, stack := Enter(mem0, root0, grants, g);
    if !ok {
      out := NoMemory;
      return;
    }
    var slot: nat, newParent := 0, NodePtr(newN);
    while true
      invariant AtNode(g, mem, shape, stack, root, node, newN, slot, newParent, log)
      invariant OnBudget(g, grants, asked, stack)
      decreases Work(stack)
    {
      Budget(g, grants, asked, stack);
      AtNodeParts(g, mem, shape, stack, root, node, newN, slot, newParent, log);
      if slot < FAN_OUT {
        ok, mem, root, node, newN, slot, newParent, log, asked, stack :=
          VisitSlot(mem, root, node, newN, slot, newParent, log, iter, grants, asked, g, shape, stack);
        if !ok {
          out := NoMemory;
          return;
        }
      } else {
        var status;
        status, mem, root, node, newN, slot, newParent, count, shape :=
          LeaveNode(mem, root, node, newN, newParent, g, shape, stack, log);
        match status {
          case Trap =>
            out := Bug;
            return;
          case Complete =>
            out := Collected;
            DeliveredUntouched(g, mem, root);
            NothingOwed(stack);
            return;
          case Onward =>
            WorkPopped(stack);
            OwedPopped(stack);
            stack := Advanced(stack[..|stack| - 1]);
        }
      }
      Budget(g, grants, asked, stack);
    }
  }

  lemma NothingOwed(stack: Stack)
    requires |stack| == 1 && stack[0].slot >= |stack[0].ss|
    ensures Owed(stack) == 0
  {
    assert stack[..0] == [];
  }

  lemma SeenNothing()
    ensures SeenSoFar([]) == []
  {
  }

  /** The old tree is not written to, whatever the outcome, and unless the collection
      completes the array is unchanged. It completes exactly if every request for memory
      is granted, one for the edit and one for each node and shortcut, and the tree,
      once filtered, has no snag. With memory enough, an assertion fails exactly on a
      snag. On completion the iterator saw every leaf once and in order, and the new
      root holds the compacted tree, with every other new cell released. */
  method AssocArrayGc(mem0: Mem, root0: Ptr, count0: nat, iter: Iterator, grants: nat -> bool, ghost tree: Tree)
    returns (out: Outcome, mem: Mem, root: Ptr, count: nat, log: seq<Obj>)
    requires ValidJob(Job(mem0, root0, tree, iter))
    ensures Untouched(Job(mem0, root0, tree, iter), mem)
    ensures out != Collected ==> root == root0 && count == count0
    ensures WellFormed(tree) && WellFormed(Filter(tree, iter, []))
    ensures root0 == Null ==> out == Collected && mem == mem0 && root == Null && count == count0 && log == []
    ensures root0 != Null ==>
      && (out == Collected <==> !HasSnag(Filter(tree, iter, [])) && Granted(grants, 1 + Cells(tree)))
      && (out == NoMemory ==> !Granted(grants, 1 + Cells(tree)))
      && (out == Bug ==> HasSnag(Filter(tree, iter, [])))
    ensures out == Collected && root0 != Null ==>
      && Delivered(Job(mem0, root0, tree, iter), mem, root)
      && log == Leaves(tree) && count == |Accepted(log, iter, [])|
  {
    ghost var g := Job(mem0, root0, tree, iter);
    mem, root, count, log := mem0, root0, count0, [];
    MirrorHolds(mem0, root0, tree, Null, 0);
    FilterWellFormed(tree, iter, []);
    if root0 == Null {
      out := Collected;
      return;
    }
    TrappedIffSnag(Filter(tree, iter, []));
    ResultCount(g);
    hide Trapped;
    hide HasSnag;
    hide Filter;
    hide Delivered;
    hide Result;
    if !grants(0) {
      out := NoMemory;
      return;
    }
    var newRoot, total;
    out, mem, newRoot, total, log := Walk(mem0, root0, iter, grants, g);
    if out == Collected {
      root, count := newRoot, total;
    }
  }
}
