/** Whether lookup still finds everything after a collection. Excising a shortcut moves
    its node to a level where all leaves share their digit; this module says exactly
    on which trees that loses an object, in terms of leaf counts and of the digits that
    shortcuts skip. */
module Readability {
  import opened AssocTree
  import opened Compress
  import opened Collect
  import opened NormalForm
  import opened Snag
  import opened Lookup

  // ----- whether a collection leaves a tree readable

  /** A collection keeps what is below `t` findable, `path` being where it is and `level`
      where lookup will be when it gets there: less than the path's length once a
      shortcut on the way has been excised. Then the node's slots are chosen by a digit
      that all its leaves share. That does no harm if the node holds leaves only; a
      stuck node must have all its leaves below the slot of that digit. */
  predicate Readable(t: Tree, level: nat, path: seq<Digit>)
    requires WellFormed(t)
    decreases t
  {
    match t
    case Empty => true
    case Leaf(_) => true
    case Node(ss) =>
      if level >= |path| then forall i :: 0 <= i < |ss| ==> Readable(ss[i], level + 1, path + [i])
      else Stuck(t) ==> Count(ss[path[level]]) == FAN_OUT && Readable(ss[path[level]], level + 1, path + [path[level]])
    case Shortcut(k, c) =>
      Readable(c, if Count(c) > FAN_OUT then |SkipPath(k)| else level, SkipPath(k))
  }

  /** What becomes of a shortcut, in terms of what becomes of its node. */
  lemma SkipCompacts(k: Skip, c: Tree)
    requires WellFormed(Shortcut(k, c))
    ensures WellFormed(c) && c.Node?
    ensures Count(c) <= FAN_OUT ==> Compact(Shortcut(k, c)) == Compact(c)
    ensures Count(c) > FAN_OUT ==>
      Compact(Shortcut(k, c)) == if Compact(c).Shortcut? then Compact(c) else Shortcut(k, Compact(c))
  {
    hide LeavesOf;
    hide Tally;
    hide CompactNode;
    assert WellFormed(c);
    NodeLeaves(c.slots);
  }

  /** A stuck node all of whose leaves are in one slot keeps just that child. */
  lemma OneChild(ss: seq<Tree>, d: nat)
    requires AllWellFormed(ss) && Stuck(Node(ss)) && d < |ss| && Count(ss[d]) == FAN_OUT
    ensures var r := CompactNode(ss);
      && r[d].Node? && r[d] == Compact(ss[d]) && !LoneShortcut(r)
      && forall i :: 0 <= i < |r| && i != d ==> r[i].Empty?
  {
    hide LeavesOf;
    hide Tally;
    hide Leaves;
    hide CompactNode;
    hide Compact;
    var r := CompactNode(ss);
    assert Count(Node(ss)) == |LeavesOf(ss)| by { SlotsOf(ss); }
    NodeKeeps(ss);
    NodeLeaves(ss);
    NodeNormal(ss);
    TallyPositive(r, MetaKind);
    var j :| 0 <= j < |r| && KindOf(r[j]) == MetaKind;
    KeptSlot(ss, j);
    if j != d {
      TwoSlots(ss, j, d);
      assert false;
    }
    assert Normal(r[d]);
    if r[d].Shortcut? {
      SkipLeaves(r[d].skip, r[d].target);
    }
    forall i | 0 <= i < |r| && i != d ensures r[i].Empty? {
      TwoSlots(r, i, d);
      CountEmpty(r[i]);
    }
    if LoneShortcut(r) {
      LoneLeaves(r);
    }
  }

  lemma SlotsOf(ss: seq<Tree>)
    ensures Leaves(Node(ss)) == LeavesOf(ss)
  {
  }

  lemma LoneSearchable(r: seq<Tree>, path: seq<Digit>, keys: Keys)
    requires WellFormed(Node(r)) && Searchable(Node(r), path, keys) && LoneShortcut(r)
    ensures WellFormed(Lone(r)) && Searchable(Lone(r), path, keys)
  {
    hide LeavesOf;
    hide Tally;
    AllFree(r);
    var i := Occupied(r, 0);
    assert IsMeta(r[i]);
    assert SlotSearchable(r, i, path, keys);
    assert Searchable(r[i], path + [i], keys);
    assert path <= path + [i] <= SkipPath(r[i].skip);
  }

  /** A node without children can be searched from any part of its leaves' path. */
  lemma FlatSearchable(r: seq<Tree>, path: seq<Digit>, keys: Keys)
    requires WellFormed(Node(r)) && Kids(r) == 0 && forall o :: o in LeavesOf(r) ==> OnPath(o, path, keys)
    ensures Searchable(Node(r), path, keys)
  {
    TallyPositive(r, MetaKind);
    hide Tally;
    hide LeavesOf;
    hide OnPath;
    forall i | 0 <= i < |r|
      ensures SlotSearchable(r, i, path, keys)
    {
      assert !(KindOf(r[i]) == MetaKind);
      if r[i].Leaf? {
        InLeaves(r, r[i].obj);
        assert r[i].obj in Leaves(r[i]);
        assert !(KindOf(r[keys(r[i].obj, |path|)]) == MetaKind);
      }
    }
  }

  /** Read where it belongs, a node stays searchable if its children do. */
  lemma {:induction false} NodeSearchable(ss: seq<Tree>, path: seq<Digit>, keys: Keys)
    requires WellFormed(Node(ss)) && Searchable(Node(ss), path, keys) && Readable(Node(ss), |path|, path)
    ensures AllWellFormed(ss) && WellFormed(Node(CompactNode(ss))) && Searchable(Node(CompactNode(ss)), path, keys)
    decreases Node(ss), 0
  {
    hide LeavesOf;
    hide Tally;
    hide Leaves;
    hide Compact;
    hide CompactNode;
    hide Normal;
    hide OnPath;
    NodeLaid(ss, path, keys);
    NodeNormal(ss);
    var r := CompactNode(ss);
    AllNormalWellFormed(r);
    forall i | 0 <= i < |r|
      ensures SlotSearchable(r, i, path, keys)
    {
      assert SlotLaid(r, i, path, keys);
      if IsMeta(r[i]) {
        KeptSlot(ss, i);
        assert SlotSearchable(ss, i, path, keys);
        CompactSearchable(ss[i], |path| + 1, path + [i], keys);
        assert (path + [i])[..|path| + 1] == path + [i];
      }
    }
  }

  /** Read too early, a node stays searchable if it holds leaves only, or all its leaves
      in the child that is read next. */
  lemma {:induction false} EarlySearchable(ss: seq<Tree>, level: nat, path: seq<Digit>, keys: Keys)
    requires WellFormed(Node(ss)) && Searchable(Node(ss), path, keys)
    requires level < |path| && Count(Node(ss)) <= FAN_OUT && Readable(Node(ss), level, path)
    ensures WellFormed(Compact(Node(ss))) && Searchable(Compact(Node(ss)), path[..level], keys)
    decreases Node(ss), 0
  {
    hide LeavesOf;
    hide Tally;
    hide Leaves;
    hide CompactNode;
    hide Normal;
    hide OnPath;
    var r := CompactNode(ss);
    SlotsOf(ss);
    NodeNormal(ss);
    NodeLeaves(ss);
    CompactWellFormed(Node(ss));
    AllNormalWellFormed(r);
    if Stuck(Node(ss)) {
      var d := path[level];
      OneChild(ss, d);
      assert SlotSearchable(ss, d, path, keys);
      CompactSearchable(ss[d], level + 1, path + [d], keys);
      assert (path + [d])[..level + 1] == path[..level] + [d];
      forall i | 0 <= i < |r| ensures SlotSearchable(r, i, path[..level], keys) {
      }
    } else {
      if |LeavesOf(ss)| == FAN_OUT {
        NodeKeeps(ss);
      }
      NotLone(r);
      forall o | o in LeavesOf(r) ensures OnPath(o, path[..level], keys) {
        SameMembers(LeavesOf(r), LeavesOf(ss), o);
        LeavesOnPath(Node(ss), path, keys, o);
        assert path == path[..level] + path[level..];
        Shorter(o, path[..level], path[level..], keys);
      }
      FlatSearchable(r, path[..level], keys);
    }
  }

  lemma NotLone(r: seq<Tree>)
    requires Kids(r) == 0
    ensures !LoneShortcut(r)
  {
    TallyPositive(r, MetaKind);
    hide Tally;
    AllFree(r);
  }

  /** Compacting keeps a readable tree searchable, shortcuts and all: retained children
      keep their slot, and leaves move up only. */
  lemma {:induction false} CompactSearchable(t: Tree, level: nat, path: seq<Digit>, keys: Keys)
    requires WellFormed(t) && Searchable(t, path, keys) && Readable(t, level, path)
    requires level <= |path| && (level < |path| ==> Count(t) <= FAN_OUT)
    ensures WellFormed(Compact(t)) && Searchable(Compact(t), path[..level], keys)
    decreases t, 1
  {
    hide LeavesOf;
    hide Tally;
    hide Leaves;
    hide CompactNode;
    hide Normal;
    match t
    case Empty =>
    case Leaf(_) =>
    case Node(ss) =>
      if level < |path| {
        EarlySearchable(ss, level, path, keys);
      } else {
        NodeSearchable(ss, path, keys);
        assert path[..level] == path;
        if LoneShortcut(CompactNode(ss)) {
          LoneSearchable(CompactNode(ss), path, keys);
        }
      }
    case Shortcut(k, c) =>
      var p := SkipPath(k);
      SkipCompacts(k, c);
      assert Leaves(t) == Leaves(c) by { SkipLeaves(k, c); }
      var n := if Count(c) > FAN_OUT then |p| else level;
      CompactSearchable(c, n, p, keys);
      assert p[..level] == path[..level] && p[..|p|] == p;
  }

  lemma SkipLeaves(k: Skip, c: Tree)
    ensures Leaves(Shortcut(k, c)) == Leaves(c)
  {
  }

  // ----- an unreadable tree loses an object

  /** What is found is there. */
  lemma {:induction false} FoundIsThere(t: Tree, o: Obj, level: nat, keys: Keys)
    requires WellFormed(t) && Find(t, o, level, keys)
    ensures o in Leaves(t)
  {
    match t
    case Leaf(_) =>
    case Node(ss) =>
      InLeaves(ss, o);
      var s := ss[keys(o, level)];
      if IsMeta(s) {
        FoundIsThere(s, o, level + 1, keys);
      } else {
        var i :| 0 <= i < |ss| && ss[i] == Leaf(o);
        assert o in Leaves(ss[i]);
      }
    case Shortcut(k, c) => FoundIsThere(c, o, |SkipPath(k)|, keys);
  }

  /** A shortcut found from one level on is found from the next. */
  lemma LaterFinds(t: Tree, o: Obj, level: nat, later: nat, keys: Keys)
    requires WellFormed(t) && t.Shortcut? && level <= later
    ensures Find(t, o, level, keys) ==> Find(t, o, later, keys)
  {
  }

  /** A child that a pass folds without failing an assertion held leaves only. */
  lemma {:induction false} PassFoldsFlat(ts: seq<Tree>, i: nat, j: nat)
    requires i <= |ts| && j < |ts| && !PassTraps(ts, i)
    requires IsMeta(ts[j]) && !IsMeta(Pass(ts, i)[j])
    ensures ts[j].Node? && Kids(ts[j].slots) == 0
    decreases |ts| - i
  {
    hide LeavesOf;
    hide Tally;
    hide FoldSlot;
    if i < |ts| {
      FoldSlotFacts(ts, i);
      if i != j || !Fits(ts, i) {
        PassFoldsFlat(FoldSlot(ts, i), i + 1, j);
      }
    }
  }

  lemma {:induction false} FoldsFlat(ts: seq<Tree>, j: nat)
    requires |ts| == FAN_OUT && j < |ts| && !CompressTraps(ts)
    requires IsMeta(ts[j]) && !IsMeta(Compress.Compress(ts)[j])
    ensures ts[j].Node? && Kids(ts[j].slots) == 0
    decreases Kids(ts)
  {
    hide LeavesOf;
    hide Tally;
    hide Pass;
    hide PassTraps;
    var us := Pass(ts, 0);
    PassFacts(ts, 0);
    if !IsMeta(us[j]) {
      PassFoldsFlat(ts, 0, j);
    } else {
      PassProgress(ts);
      FoldsFlat(us, j);
    }
  }

  /** In a node without children every leaf is found. */
  lemma FlatFinds(r: seq<Tree>, o: Obj, level: nat, keys: Keys)
    requires WellFormed(Node(r)) && Kids(r) == 0 && o in LeavesOf(r)
    ensures Find(Node(r), o, level, keys)
  {
    TallyPositive(r, MetaKind);
    hide Tally;
    InLeaves(r, o);
    var i :| 0 <= i < |r| && o in Leaves(r[i]);
    assert !(KindOf(r[i]) == MetaKind);
    assert r[i] == Leaf(o);
    assert !(KindOf(r[keys(o, level)]) == MetaKind);
  }

  /** What is lost below a slot is lost to the node, read where it belongs. */
  lemma LostBelow(ss: seq<Tree>, i: nat, path: seq<Digit>, keys: Keys, o: Obj)
    requires WellFormed(Node(ss)) && Searchable(Node(ss), path, keys) && !HasSnag(Node(ss))
    requires i < |ss| && IsMeta(ss[i]) && o in Leaves(ss[i])
    requires WellFormed(Compact(ss[i])) && !Find(Compact(ss[i]), o, |path| + 1, keys)
    ensures WellFormed(Compact(Node(ss))) && !Find(Compact(Node(ss)), o, |path|, keys)
  {
    hide LeavesOf;
    hide Tally;
    hide Leaves;
    hide CompactNode;
    hide Normal;
    hide OnPath;
    hide Searchable;
    var r := CompactNode(ss);
    CompactWellFormed(Node(ss));
    DigitOf(ss, i, path, keys, o);
    StaysOrFlat(ss, i);
    CompactLeaves(ss[i]);
    SameMembers(Leaves(Compact(ss[i])), Leaves(ss[i]), o);
    if !IsMeta(r[i]) {
      var c := Compact(ss[i]);
      SlotsOf(c.slots);
      FlatFinds(c.slots, o, |path| + 1, keys);
    } else if LoneShortcut(r) {
      LoneAt(r, i);
      LaterFinds(r[i], o, |path|, |path| + 1, keys);
    }
  }

  lemma LoneAt(r: seq<Tree>, i: nat)
    requires LoneShortcut(r) && i < |r| && !r[i].Empty?
    ensures Lone(r) == r[i]
  {
    hide Tally;
    AllFree(r);
    var j := Occupied(r, 0);
    AloneIsFree(r, j);
  }

  lemma DigitOf(ss: seq<Tree>, i: nat, path: seq<Digit>, keys: Keys, o: Obj)
    requires WellFormed(Node(ss)) && Searchable(Node(ss), path, keys)
    requires i < |ss| && IsMeta(ss[i]) && o in Leaves(ss[i])
    ensures keys(o, |path|) == i && OnPath(o, path, keys)
  {
    hide Leaves;
    assert SlotSearchable(ss, i, path, keys);
    LeavesOnPath(ss[i], path + [i], keys, o);
    Shorter(o, path, [i], keys);
  }

  /** A child is retained as it is, or held leaves only. */
  lemma StaysOrFlat(ss: seq<Tree>, i: nat)
    requires WellFormed(Node(ss)) && !HasSnag(Node(ss)) && i < |ss| && IsMeta(ss[i])
    ensures AllWellFormed(ss) && WellFormed(ss[i])
    ensures var r, c := CompactNode(ss), Compact(ss[i]);
      if IsMeta(r[i]) then r[i] == c else c.Node? && Kids(c.slots) == 0
  {
    hide LeavesOf;
    hide Tally;
    hide Leaves;
    hide Compact;
    hide HasSnag;
    hide CompressTraps;
    var ts := CompactAll(ss);
    TrappedIffSnag(Node(ss));
    CompactAllAt(ss, i);
    CompactKind(ss[i]);
    CompressFacts(ts);
    if !IsMeta(CompactNode(ss)[i]) {
      FoldsFlat(ts, i);
    }
  }

  /** A stuck node that is read too early, by a digit that all its leaves share, loses an
      object unless they are all below that digit's slot: what is elsewhere is not looked
      at, or what is below another child is not. */
  lemma EarlyLoses(ss: seq<Tree>, level: nat, path: seq<Digit>, keys: Keys) returns (o: Obj)
    requires WellFormed(Node(ss)) && Searchable(Node(ss), path, keys) && level < |path|
    requires Stuck(Node(ss)) && Count(ss[path[level]]) != FAN_OUT
    ensures o in Leaves(Node(ss))
    ensures WellFormed(Compact(Node(ss))) && !Find(Compact(Node(ss)), o, level, keys)
  {
    hide LeavesOf;
    hide Tally;
    hide Leaves;
    hide CompactNode;
    hide Normal;
    hide OnPath;
    hide SlotLaid;
    var r, d := CompactNode(ss), path[level];
    SlotsOf(ss);
    SlotsOf(r);
    NodeLaid(ss, path, keys);
    NodeLeaves(ss);
    NodeKeeps(ss);
    NodeNormal(ss);
    CompactWellFormed(Node(ss));
    CompactKind(Node(ss));
    assert Compact(Node(ss)) == Node(r) by { StuckStays(ss); }
    KeptSlot(ss, d);
    var j := Elsewhere(r, d);
    o := Leaves(r[j])[0];
    InLeaves(r, o);
    SameMembers(LeavesOf(r), LeavesOf(ss), o);
    LeavesOnPath(Node(ss), path, keys, o);
    assert keys(o, level) == d by { SharedDigit(o, path, level, keys); }
    LaidKeys(r, path, keys, j, o);
    if Find(Node(r), o, level, keys) {
      var q := FoundAt(r, o, level, keys);
      LaidKeys(r, path, keys, q, o);
      assert false;
    }
  }

  /** Where a node's lookup finds an object: below the slot of the digit, or in a slot
      that holds it. */
  lemma FoundAt(r: seq<Tree>, o: Obj, level: nat, keys: Keys) returns (q: nat)
    requires WellFormed(Node(r)) && Find(Node(r), o, level, keys)
    ensures q < |r| && o in Leaves(r[q])
    ensures if IsMeta(r[keys(o, level)]) then q == keys(o, level) else r[q].Leaf?
  {
    var d := keys(o, level);
    if IsMeta(r[d]) {
      FoundIsThere(r[d], o, level + 1, keys);
      q := d;
    } else {
      q :| 0 <= q < |r| && r[q] == Leaf(o);
    }
  }

  lemma SharedDigit(o: Obj, path: seq<Digit>, level: nat, keys: Keys)
    requires OnPath(o, path, keys) && level < |path|
    ensures keys(o, level) == path[level]
  {
  }

  lemma LaidKeys(r: seq<Tree>, path: seq<Digit>, keys: Keys, i: nat, o: Obj)
    requires Laid(r, path, keys) && i < |r| && o in Leaves(r[i])
    ensures if IsMeta(r[i]) then keys(o, |path|) == i else !IsMeta(r[keys(o, |path|)])
  {
    assert SlotLaid(r, i, path, keys);
    if IsMeta(r[i]) {
      Shorter(o, path, [i], keys);
    }
  }

  /** Some leaf is not below slot `d`; below another child if slot `d` has none. */
  lemma Elsewhere(r: seq<Tree>, d: nat) returns (j: nat)
    requires |LeavesOf(r)| == FAN_OUT && Kids(r) > 0 && d < |r|
    requires IsMeta(r[d]) ==> Count(r[d]) != FAN_OUT
    requires forall i :: 0 <= i < |r| && IsMeta(r[i]) ==> Count(r[i]) >= 2
    ensures j < |r| && j != d && Count(r[j]) > 0 && (IsMeta(r[d]) || IsMeta(r[j]))
  {
    hide Leaves;
    TallyPositive(r, MetaKind);
    hide LeavesOf;
    hide Tally;
    if IsMeta(r[d]) {
      if forall i :: 0 <= i < |r| && i != d ==> Count(r[i]) == 0 {
        OnlyOne(r, d);
        assert false;
      }
      j :| 0 <= j < |r| && j != d && Count(r[j]) != 0;
    } else {
      j :| 0 <= j < |r| && KindOf(r[j]) == MetaKind;
    }
  }

  lemma StuckStays(ss: seq<Tree>)
    requires AllWellFormed(ss) && WellFormed(Node(ss)) && Stuck(Node(ss))
    ensures Compact(Node(ss)) == Node(CompactNode(ss))
  {
    hide LeavesOf;
    hide Tally;
    hide CompactNode;
    CompactKind(Node(ss));
    CompactNormal(Node(ss));
  }

  /** If a tree is not readable after a collection, some object can no longer be found. */
  lemma {:induction false} LosesOne(t: Tree, level: nat, path: seq<Digit>, keys: Keys) returns (o: Obj)
    requires WellFormed(t) && Searchable(t, path, keys) && !HasSnag(t) && !Readable(t, level, path)
    requires level <= |path| && (level < |path| ==> Count(t) <= FAN_OUT)
    ensures o in Leaves(t) && WellFormed(Compact(t)) && !Find(Compact(t), o, level, keys)
    decreases t, 1
  {
    hide LeavesOf;
    hide Tally;
    hide CompactNode;
    hide Compact;
    match t
    case Node(ss) =>
      if level == |path| {
        var i :| 0 <= i < |ss| && !Readable(ss[i], level + 1, path + [i]);
        assert SlotSearchable(ss, i, path, keys);
        o := LosesOne(ss[i], level + 1, path + [i], keys);
        InLeaves(ss, o);
        LostBelow(ss, i, path, keys, o);
      } else if Count(ss[path[level]]) != FAN_OUT {
        o := EarlyLoses(ss, level, path, keys);
      } else {
        o := ChildLoses(ss, level, path, keys);
      }
    case Shortcut(k, c) =>
      var p := SkipPath(k);
      SkipCompacts(k, c);
      CompactWellFormed(t);
      if Count(c) > FAN_OUT {
        o := LosesOne(c, |p|, p, keys);
        if Compact(t).Shortcut? {
          LaterFinds(Compact(t), o, level, |p|, keys);
        }
      } else {
        o := LosesOne(c, level, p, keys);
      }
  }

  /** The stuck node passes on to its only child what that child loses. */
  lemma {:induction false} ChildLoses(ss: seq<Tree>, level: nat, path: seq<Digit>, keys: Keys) returns (o: Obj)
    requires WellFormed(Node(ss)) && Searchable(Node(ss), path, keys) && !HasSnag(Node(ss)) && level < |path|
    requires Stuck(Node(ss)) && Count(ss[path[level]]) == FAN_OUT
    requires !Readable(ss[path[level]], level + 1, path + [path[level]])
    ensures o in Leaves(Node(ss)) && WellFormed(Compact(Node(ss))) && !Find(Compact(Node(ss)), o, level, keys)
    decreases Node(ss), 0
  {
    hide LeavesOf;
    hide Tally;
    hide Leaves;
    hide CompactNode;
    hide Normal;
    hide OnPath;
    var d := path[level];
    OneChild(ss, d);
    CompactWellFormed(Node(ss));
    StuckStays(ss);
    assert SlotSearchable(ss, d, path, keys);
    o := LosesOne(ss[d], level + 1, path + [d], keys);
    SlotsOf(ss);
    InLeaves(ss, o);
    DigitOf(ss, d, path, keys, o);
    SharedDigit(o, path, level, keys);
  }

  // ----- whole collections

  /** Lookup finds these objects and no others. */
  ghost predicate FindsExactly(t: Tree, objs: seq<Obj>, keys: Keys)
    requires WellFormed(t)
  {
    forall o: Obj :: Find(t, o, 0, keys) <==> o in objs
  }

  lemma ExactlyIf(t: Tree, objs: seq<Obj>, keys: Keys)
    requires WellFormed(t) && forall o: Obj :: Find(t, o, 0, keys) <==> o in objs
    ensures FindsExactly(t, objs, keys)
  {
  }

  lemma NotExactly(t: Tree, objs: seq<Obj>, keys: Keys, o: Obj)
    requires WellFormed(t) && o in objs && !Find(t, o, 0, keys)
    ensures !FindsExactly(t, objs, keys)
  {
  }

  lemma EveryPath(o: Obj, keys: Keys)
    ensures OnPath(o, [], keys)
  {
  }

  /** After a collection, lookup finds exactly the objects the iterator kept if and only
      if the filtered tree is readable. (A tree with a snag is never collected.) */
  lemma CollectionFinds(t: Tree, iter: Iterator, keys: Keys)
    requires WellFormed(t) && Searchable(t, [], keys)
    ensures var f := Filter(t, iter, []);
      && WellFormed(f) && WellFormed(Compact(f))
      && (Readable(f, 0, []) ==> FindsExactly(Compact(f), Accepted(Leaves(t), iter, []), keys))
      && (!HasSnag(f) && FindsExactly(Compact(f), Accepted(Leaves(t), iter, []), keys) ==> Readable(f, 0, []))
  {
    var f := Filter(t, iter, []);
    FilterSearchable(t, iter, [], [], keys);
    CompactWellFormed(f);
    CompactLeaves(f);
    FilterLeaves(t, iter, []);
    var root: seq<Digit> := [];
    assert root[..0] == root;
    hide *;
    if Readable(f, 0, []) {
      CompactSearchable(f, 0, [], keys);
      forall o: Obj ensures Find(Compact(f), o, 0, keys) <==> o in Leaves(f) {
        EveryPath(o, keys);
        FindsItsLeaves(Compact(f), [], keys, o);
        SameMembers(Leaves(Compact(f)), Leaves(f), o);
      }
      ExactlyIf(Compact(f), Leaves(f), keys);
    } else if !HasSnag(f) {
      var o := LosesOne(f, 0, [], keys);
      NotExactly(Compact(f), Leaves(f), keys, o);
    }
  }

  predicate ShortcutFree(t: Tree) {
    match t
    case Empty => true
    case Leaf(_) => true
    case Node(ss) => forall i :: 0 <= i < |ss| ==> ShortcutFree(ss[i])
    case Shortcut(_, _) => false
  }

  lemma {:induction false} ShortcutFreeReadable(t: Tree, iter: Iterator, h: seq<Obj>, path: seq<Digit>)
    requires WellFormed(t) && ShortcutFree(t)
    ensures WellFormed(Filter(t, iter, h)) && Readable(Filter(t, iter, h), |path|, path)
  {
    FilterWellFormed(t, iter, h);
    match t
    case Empty =>
    case Leaf(_) =>
    case Node(ss) =>
      forall i | 0 <= i < |ss| ensures Readable(FilterAll(ss, iter, h)[i], |path| + 1, path + [i]) {
        FilterAllAt(ss, iter, h, i);
        ShortcutFreeReadable(ss[i], iter, h + LeavesOf(ss[..i]), path + [i]);
      }
  }

  /** Without shortcuts there is no condition. */
  lemma ShortcutFreeCollectionFinds(t: Tree, iter: Iterator, keys: Keys)
    requires WellFormed(t) && ShortcutFree(t) && Searchable(t, [], keys)
    ensures WellFormed(Filter(t, iter, [])) && WellFormed(Compact(Filter(t, iter, [])))
    ensures FindsExactly(Compact(Filter(t, iter, [])), Accepted(Leaves(t), iter, []), keys)
  {
    ShortcutFreeReadable(t, iter, [], []);
    CollectionFinds(t, iter, keys);
  }
}
