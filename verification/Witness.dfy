/** Concrete trees that show where the conditions of the collection bite. */
module Witness {
  import opened AssocTree
  import opened Compress
  import opened Collect
  import opened NormalForm
  import opened Snag
  import opened Lookup
  import opened Readability
  import opened Again
  import opened Retention
  import Steps

  function Run(first: nat, n: nat): seq<Tree> {
    seq(n, (i: nat) => Leaf(first + i))
  }

  function Blank(n: nat): seq<Tree> {
    seq(n, (_: nat) => Empty)
  }

  lemma {:induction false} RunFacts(first: nat, n: nat)
    ensures |LeavesOf(Run(first, n))| == n && Free(Run(first, n)) == 0
    ensures forall i :: 0 <= i < n ==> Run(first, n)[i] == Leaf(first + i)
  {
    if n > 0 {
      assert Run(first, n)[..n - 1] == Run(first, n - 1);
      RunFacts(first, n - 1);
    }
  }

  lemma {:induction false} BlankFacts(n: nat)
    ensures LeavesOf(Blank(n)) == [] && Free(Blank(n)) == n
    ensures forall i :: 0 <= i < n ==> Blank(n)[i] == Empty
  {
    if n > 0 {
      assert Blank(n)[..n - 1] == Blank(n - 1);
      BlankFacts(n - 1);
    }
  }

  /** Two leaves. */
  function Pair(): Tree {
    Node(Run(100, 2) + Blank(14))
  }

  /** No leaves. */
  function Bare(): Tree {
    Node(Blank(16))
  }

  /** A pair in slot 0, leaves in slots 1 to 14, an empty node in slot 15. */
  function Crowd(): seq<Tree> {
    [Pair()] + Run(1, 14) + [Bare()]
  }

  lemma One(t: Tree)
    ensures LeavesOf([t]) == Leaves(t)
    ensures Tally([t], EmptyKind) == if t.Empty? then 1 else 0
  {
    assert [t][..0] == [];
  }

  lemma CrowdFacts()
    ensures Count(Pair()) == 2 && Count(Bare()) == 0
    ensures AllWellFormed(Crowd()) && |LeavesOf(Crowd())| == 16 && Free(Crowd()) == 0
    ensures Stuck(Node(Crowd()))
    ensures Crowd()[0] == Pair() && Crowd()[15] == Bare()
    ensures forall i :: 1 <= i < 15 ==> Crowd()[i] == Leaf(i)
  {
    RunFacts(100, 2);
    BlankFacts(14);
    BlankFacts(16);
    RunFacts(1, 14);
    LeavesOfAppend(Run(100, 2), Blank(14));
    One(Pair());
    One(Bare());
    hide LeavesOf;
    hide Tally;
    LeavesOfAppend([Pair()] + Run(1, 14), [Bare()]);
    LeavesOfAppend([Pair()], Run(1, 14));
    TallyAppend([Pair()] + Run(1, 14), [Bare()], EmptyKind);
    TallyAppend([Pair()], Run(1, 14), EmptyKind);
    assert Crowd()[0] == Pair();
  }

  /** A crowd alone in its node: 16 leaves in all, 15 free slots. */
  function Cramped(): Tree {
    Node([Node(Crowd())] + Blank(15))
  }

  /** The patched collection still fails an assertion on some tree. */
  lemma CrampedTraps()
    ensures WellFormed(Cramped()) && HasSnag(Cramped()) && Trapped(Cramped())
  {
    CrowdFacts();
    BlankFacts(15);
    hide LeavesOf;
    hide Tally;
    hide Stuck;
    hide Crowd;
    var ss := [Node(Crowd())] + Blank(15);
    assert ss[0] == Node(Crowd());
    assert SnagAt(ss, 0);
    TrappedIffSnag(Cramped());
  }

  /** A second collection of a crowd, though it keeps everything, changes it. */
  lemma CrowdChanges()
    ensures WellFormed(Node(Crowd())) && WellFormed(Compact(Node(Crowd())))
    ensures WellFormed(Filter(Compact(Node(Crowd())), ALL, []))
    ensures Compact(Filter(Compact(Node(Crowd())), ALL, [])) != Compact(Node(Crowd()))
  {
    CrowdFacts();
    var t := Node(Crowd());
    assert WellFormed(t);
    hide *;
    CompactWellFormed(t);
    FullIsStuck(t);
    FullFits(Compact(t));
    SecondCollection(t);
  }

  // ----- a shortcut to a crowd

  /** Skips to level 2 along the digits 1 and 2. */
  const ToCrowd := Skip(8, [0x21])

  /** A leaf in slot 0, and the crowd behind a shortcut in slot 1. */
  function Veiled(): seq<Tree> {
    [Leaf(50), Shortcut(ToCrowd, Node(Crowd()))] + Blank(14)
  }

  function VeiledKeys(): Keys {
    (o: Obj, level: nat) =>
      if o == 50 then 0
      else if level == 0 then 1
      else if level == 1 then 2
      else if level == 2 then (if o < 16 then o else 0)
      else (if 100 <= o < 116 then o - 100 else 0)
  }

  lemma ToCrowdPath()
    ensures SkipPath(ToCrowd) == [1, 2]
  {
    assert SkipPath(ToCrowd)[0] == Nibble(0x21, 0) == 1;
    assert SkipPath(ToCrowd)[1] == Nibble(0x21, 1) == 2;
  }

  /** A level is four bits, a word of a key has sixteen digits, lowest first: a shortcut to
      level 18 takes two of them from the second word. */
  lemma TwoWords(word: nat)
    ensures var p := SkipPath(Skip(72, [word, 0xab]));
      |p| == 18 && p[0] == word % 16 && p[1] == word / 16 % 16 && p[16] == 0xb && p[17] == 0xa
  {
    assert Nibble(word, 1) == Nibble(word / 16, 0);
    assert Nibble(0xab, 1) == Nibble(0xa, 0);
  }

  lemma VeiledFacts()
    ensures AllWellFormed(Veiled()) && WellFormed(Node(Veiled()))
    ensures |LeavesOf(Veiled())| == 17 && Free(Veiled()) == 14
    ensures Veiled()[0] == Leaf(50) && Veiled()[1] == Shortcut(ToCrowd, Node(Crowd()))
    ensures forall i :: 2 <= i < 16 ==> Veiled()[i] == Empty
  {
    CrowdFacts();
    BlankFacts(14);
    var s := Shortcut(ToCrowd, Node(Crowd()));
    One(s);
    One(Leaf(50));
    assert Leaves(Node(Crowd())) == LeavesOf(Crowd());
    hide LeavesOf;
    hide Tally;
    hide Crowd;
    LeavesOfAppend([Leaf(50), s], Blank(14));
    TallyAppend([Leaf(50), s], Blank(14), EmptyKind);
    assert [Leaf(50), s] == [Leaf(50)] + [s];
    LeavesOfAppend([Leaf(50)], [s]);
    TallyAppend([Leaf(50)], [s], EmptyKind);
    assert Veiled()[1] == s;
  }

  lemma CompactedSlot(ss: seq<Tree>, i: nat)
    requires AllWellFormed(ss) && i < |ss|
    ensures var ts := CompactAll(ss);
      && KindOf(ts[i]) == KindOf(ss[i]) && Count(ts[i]) == Count(ss[i])
      && multiset(Leaves(ts[i])) == multiset(Leaves(ss[i]))
      && (!IsMeta(ss[i]) ==> ts[i] == ss[i])
  {
    hide LeavesOf;
    hide Tally;
    hide Compact;
    CompactAllAt(ss, i);
    CompactKind(ss[i]);
    CompactNormal(ss[i]);
    CompactLeaves(ss[i]);
  }

  /** In a node whose branch keeps a child, that child has two leaves or more and is
      the one compacted in its slot. */
  lemma KeptChild(ss: seq<Tree>) returns (j: nat)
    requires AllWellFormed(ss) && Kids(CompactNode(ss)) > 0
    ensures j < |ss| && IsMeta(ss[j]) && Count(ss[j]) >= 2
    ensures CompactNode(ss)[j] == CompactAll(ss)[j] && IsMeta(CompactNode(ss)[j])
  {
    hide LeavesOf;
    hide Tally;
    hide Compact;
    var r := CompactNode(ss);
    TallyPositive(r, MetaKind);
    j :| 0 <= j < |r| && KindOf(r[j]) == MetaKind;
    CompressFacts(CompactAll(ss));
    CompressRetains(CompactAll(ss), j);
    CompactedSlot(ss, j);
  }

  lemma LeafStays(ss: seq<Tree>, i: nat)
    requires AllWellFormed(ss) && i < |ss| && ss[i].Leaf?
    ensures CompactNode(ss)[i] == ss[i]
  {
    hide LeavesOf;
    hide Tally;
    hide Compact;
    CompressFacts(CompactAll(ss));
    CompactedSlot(ss, i);
  }

  /** The crowd compacts to a node that keeps the pair in its slot. */
  lemma CrowdCompacts()
    ensures AllWellFormed(Crowd())
    ensures var r := CompactNode(Crowd());
      && IsMeta(r[0]) && (forall i :: 1 <= i < 15 ==> r[i] == Leaf(i)) && r[15] == Empty
      && !LoneShortcut(r) && |LeavesOf(r)| == 16
  {
    CrowdFacts();
    hide LeavesOf;
    hide Tally;
    hide Crowd;
    hide CompactNode;
    hide Leaves;
    var ss := Crowd();
    var r := CompactNode(ss);
    assert Stuck(Node(ss));
    NodeKeeps(ss);
    NodeLeaves(ss);
    var j := KeptChild(ss);
    assert j == 0;
    forall i | 1 <= i < 15 ensures r[i] == Leaf(i) {
      LeafStays(ss, i);
    }
    CompactedSlot(ss, 0);
    LastNotKept(ss);
    LastEmpty(r);
    assert !r[1].Empty? && !r[2].Empty?;
    if LoneShortcut(r) {
      AloneIsFree(r, 1);
    }
  }

  /** A child without leaves is always folded. */
  lemma LastNotKept(ss: seq<Tree>)
    requires AllWellFormed(ss) && Count(ss[15]) == 0
    ensures !IsMeta(CompactNode(ss)[15])
  {
    hide LeavesOf;
    hide Tally;
    hide Compact;
    var ts := CompactAll(ss);
    if IsMeta(CompactNode(ss)[15]) {
      CompressFacts(ts);
      CompressRetains(ts, 15);
      CompactedSlot(ss, 15);
    }
  }

  /** Sixteen leaves, two of them in slot 0 and one in each of slots 1 to 14. */
  lemma LastEmpty(r: seq<Tree>)
    requires |r| == 16 && |LeavesOf(r)| == 16 && Count(r[0]) == 2 && !IsMeta(r[15])
    requires forall i :: 1 <= i < 15 ==> r[i] == Leaf(i)
    ensures r[15] == Empty
  {
    RunFacts(1, 14);
    assert r == [r[0]] + Run(1, 14) + [r[15]];
    One(r[0]);
    One(r[15]);
    hide LeavesOf;
    LeavesOfAppend([r[0]] + Run(1, 14), [r[15]]);
    LeavesOfAppend([r[0]], Run(1, 14));
  }

  lemma PairSearchable()
    ensures WellFormed(Pair()) && Searchable(Pair(), [1, 2, 0], VeiledKeys())
    ensures 100 in Leaves(Pair())
  {
    RunFacts(100, 2);
    BlankFacts(14);
    var ss := Run(100, 2) + Blank(14);
    assert ss[0] == Leaf(100) && ss[1] == Leaf(101);
    forall i | 0 <= i < |ss| ensures SlotSearchable(ss, i, [1, 2, 0], VeiledKeys()) {
    }
    InLeaves(ss, 100);
    assert 100 in Leaves(ss[0]);
  }

  lemma CrowdSearchable()
    ensures WellFormed(Node(Crowd())) && Searchable(Node(Crowd()), [1, 2], VeiledKeys())
    ensures 100 in Leaves(Node(Crowd()))
  {
    CrowdFacts();
    BlankFacts(16);
    PairSearchable();
    hide LeavesOf;
    hide Tally;
    hide Crowd;
    hide Pair;
    var ss := Crowd();
    assert Searchable(Bare(), [1, 2, 15], VeiledKeys());
    assert [1, 2] + [0] == [1, 2, 0] && [1, 2] + [15] == [1, 2, 15];
    forall i | 0 <= i < |ss| ensures SlotSearchable(ss, i, [1, 2], VeiledKeys()) {
    }
    InLeaves(ss, 100);
    assert 100 in Leaves(ss[0]);
  }

  lemma VeiledSearchable()
    ensures WellFormed(Node(Veiled())) && Searchable(Node(Veiled()), [], VeiledKeys())
    ensures 100 in Leaves(Node(Veiled()))
  {
    VeiledFacts();
    ToCrowdPath();
    CrowdSearchable();
    hide LeavesOf;
    hide Tally;
    hide Crowd;
    hide Veiled;
    hide SkipPath;
    var ss := Veiled();
    assert [] + [1] == [1];
    assert Searchable(ss[1], [1], VeiledKeys());
    forall i | 0 <= i < |ss| ensures SlotSearchable(ss, i, [], VeiledKeys()) {
    }
    assert Leaves(ss[1]) == Leaves(Node(Crowd()));
    InLeaves(ss, 100);
  }

  /** A searchable tree from which a collection that keeps everything, and fails no
      assertion, makes an object impossible to find: the shortcut to the crowd of
      exactly 16 leaves is excised although the crowd keeps its pair. */
  lemma VeiledLoses()
    ensures WellFormed(Node(Veiled())) && WellFormed(Compact(Node(Veiled())))
    ensures Searchable(Node(Veiled()), [], VeiledKeys()) && 100 in Leaves(Node(Veiled()))
    ensures Find(Node(Veiled()), 100, 0, VeiledKeys())
    ensures !HasSnag(Node(Veiled())) && !Readable(Node(Veiled()), 0, [])
    ensures !Find(Compact(Node(Veiled())), 100, 0, VeiledKeys())
  {
    VeiledSearchable();
    FindsItsLeaves(Node(Veiled()), [], VeiledKeys(), 100);
    VeiledFacts();
    VeiledNoSnag();
    VeiledMisses();
    VeiledUnreadable();
  }

  lemma VeiledUnreadable()
    requires WellFormed(Node(Veiled())) && Searchable(Node(Veiled()), [], VeiledKeys())
    requires WellFormed(Compact(Node(Veiled()))) && 100 in Leaves(Node(Veiled()))
    requires !Find(Compact(Node(Veiled())), 100, 0, VeiledKeys())
    ensures !Readable(Node(Veiled()), 0, [])
  {
    var root: seq<Digit> := [];
    assert root[..0] == root;
    assert OnPath(100, root, VeiledKeys());
    hide *;
    if Readable(Node(Veiled()), 0, root) {
      var t := Node(Veiled());
      CompactSearchable(t, 0, root, VeiledKeys());
      FindsItsLeaves(Compact(t), root, VeiledKeys(), 100);
      CompactLeaves(t);
      SameMembers(Leaves(Compact(t)), Leaves(t), 100);
      assert false;
    }
  }

  lemma {:induction false} NoCells(ts: seq<Tree>, i: nat, j: nat)
    requires i <= j <= |ts| && forall k :: i <= k < j ==> !IsMeta(ts[k])
    ensures Steps.CellsFrom(ts, i) == Steps.CellsFrom(ts, j)
    decreases j - i
  {
    if i < j {
      NoCells(ts, i + 1, j);
    }
  }

  lemma FlatCells(ss: seq<Tree>)
    requires forall k :: 0 <= k < |ss| ==> !IsMeta(ss[k])
    ensures Steps.Cells(Node(ss)) == 1
  {
    NoCells(ss, 0, |ss|);
  }

  lemma CrowdCells()
    ensures Steps.Cells(Node(Crowd())) == 3
  {
    CrowdFacts();
    RunFacts(100, 2);
    BlankFacts(14);
    BlankFacts(16);
    FlatCells(Run(100, 2) + Blank(14));
    FlatCells(Blank(16));
    hide LeavesOf;
    hide Tally;
    hide Crowd;
    hide Stuck;
    hide WellFormed;
    NoCells(Crowd(), 1, 15);
    assert Steps.CellsFrom(Crowd(), 15) == 1;
  }

  /** Copying that tree takes five requests beside the one for the edit: the root, the
      shortcut, the crowd, the pair and the empty node. */
  lemma VeiledCells()
    ensures Steps.Cells(Node(Veiled())) == 5
  {
    VeiledFacts();
    CrowdCells();
    hide LeavesOf;
    hide Tally;
    hide Crowd;
    hide Veiled;
    hide WellFormed;
    NoCells(Veiled(), 2, 16);
    assert Steps.CellsFrom(Veiled(), 1) == 4;
  }

  // ----- a shortcut to a stuck node that does no harm

  /** A node of 16 leaves in slot 0, and an empty node in slot 1. */
  function Den(): seq<Tree> {
    [Node(Run(1, 16)), Bare()] + Blank(14)
  }

  /** Skips to level 2 along the digits 1 and 0. */
  const ToDen := Skip(8, [0x01])

  /** Excising the shortcut to a stuck node loses nothing here: the digit that all its
      leaves share is that of the slot they are all in. */
  lemma DenReadable()
    ensures WellFormed(Shortcut(ToDen, Node(Den()))) && Stuck(Shortcut(ToDen, Node(Den())))
    ensures Readable(Shortcut(ToDen, Node(Den())), 1, [1])
  {
    DenFacts();
    hide LeavesOf;
    hide Tally;
    var ss := Den();
    assert SkipPath(ToDen)[0] == Nibble(0x01, 0) == 1;
    assert SkipPath(ToDen)[1] == Nibble(0x01, 1) == 0;
    assert SkipPath(ToDen) == [1, 0];
    assert Retains(ss, 0, Free(ss));
    NoneKept(Run(1, 16), 0);
    assert Readable(ss[0], 2, [1, 0, 0]);
    assert [1, 0] + [0] == [1, 0, 0];
  }

  lemma DenFacts()
    ensures AllWellFormed(Den()) && |LeavesOf(Den())| == 16 && Free(Den()) == 14
    ensures Den()[0] == Node(Run(1, 16)) && Count(Den()[0]) == 16
    ensures forall i :: 0 <= i < 16 ==> Run(1, 16)[i] == Leaf(1 + i)
  {
    RunFacts(1, 16);
    BlankFacts(16);
    BlankFacts(14);
    One(Node(Run(1, 16)));
    One(Bare());
    hide LeavesOf;
    hide Tally;
    var two := [Node(Run(1, 16)), Bare()];
    assert two == [Node(Run(1, 16))] + [Bare()];
    LeavesOfAppend(two, Blank(14));
    LeavesOfAppend([Node(Run(1, 16))], [Bare()]);
    TallyAppend(two, Blank(14), EmptyKind);
    TallyAppend([Node(Run(1, 16))], [Bare()], EmptyKind);
    SlotsOf(Run(1, 16));
    SlotsOf(Blank(16));
  }

  /** A node without children keeps none. */
  lemma {:induction false} NoneKept(ss: seq<Tree>, i: nat)
    requires i <= |ss| && forall j :: 0 <= j < |ss| ==> !IsMeta(ss[j])
    ensures forall free: int :: !Retains(ss, i, free)
    decreases |ss| - i
  {
    if i < |ss| {
      NoneKept(ss, i + 1);
    }
  }

  lemma VeiledMisses()
    ensures AllWellFormed(Veiled()) && WellFormed(Node(Veiled())) && WellFormed(Compact(Node(Veiled())))
    ensures !Find(Compact(Node(Veiled())), 100, 0, VeiledKeys())
  {
    VeiledCompacts();
    VeiledFacts();
    CompactWellFormed(Node(Veiled()));
    CrowdCompacts();
    assert VeiledKeys()(100, 0) == 1 && VeiledKeys()(100, 1) == 2;
    hide *;
    Missed(CompactNode(Veiled()), CompactNode(Crowd()), 100, VeiledKeys());
  }

  /** A leaf scan of the second node misses what only its child holds. */
  lemma Missed(r: seq<Tree>, c: seq<Tree>, o: Obj, keys: Keys)
    requires WellFormed(Node(r)) && keys(o, 0) == 1 && r[1] == Node(c)
    requires keys(o, 1) == 2 && |c| == FAN_OUT && IsMeta(c[0]) && c[15].Empty?
    requires (forall i :: 1 <= i < 15 ==> c[i] == Leaf(i)) && o > 15
    ensures !Find(Node(r), o, 0, keys)
  {
    assert WellFormed(r[1]);
    assert !Find(r[1], o, 1, keys);
  }

  lemma VeiledNoSnag()
    ensures !HasSnag(Node(Veiled()))
  {
    VeiledFacts();
    CrowdFacts();
    RunFacts(100, 2);
    BlankFacts(14);
    BlankFacts(16);
    hide LeavesOf;
    hide Tally;
    assert !HasSnag(Pair());
    assert !HasSnag(Bare());
    CrowdNoSnag();
    hide Crowd;
    var ss := Veiled();
    forall j | 0 <= j < |ss| ensures !SnagAt(ss, j) && !HasSnag(ss[j]) {
      assert Count(ss[0]) == 1;
    }
  }

  lemma CrowdNoSnag()
    ensures !HasSnag(Node(Crowd()))
  {
    CrowdFacts();
    RunFacts(100, 2);
    BlankFacts(14);
    BlankFacts(16);
    hide LeavesOf;
    hide Tally;
    var ss := Crowd();
    forall j | 0 <= j < |ss| ensures !SnagAt(ss, j) && !HasSnag(ss[j]) {
    }
  }

  /** The root retains the crowd, now without its shortcut. */
  lemma VeiledCompacts()
    ensures WellFormed(Node(Veiled())) && AllWellFormed(Veiled()) && AllWellFormed(Crowd())
    ensures var r := CompactNode(Veiled());
      && Compact(Node(Veiled())) == Node(r)
      && r[1] == Node(CompactNode(Crowd()))
  {
    VeiledFacts();
    CrowdCompacts();
    hide LeavesOf;
    hide Tally;
    hide Crowd;
    hide Veiled;
    hide CompactNode;
    var ss := Veiled();
    var r := CompactNode(ss);
    NodeLeaves(ss);
    if Kids(r) == 0 {
      LeavesAreSlots(r);
      TallyTotal(r);
    }
    var j := KeptChild(ss);
    CompactAllAt(ss, j);
    LeafStays(ss, 0);
  }

  // ----- a branch that gets one pass only

  function Trio(): Tree {
    Node(Run(200, 3) + Blank(13))
  }

  /** Eighteen leaves: a pair in slot 0, leaves in slots 1 to 13, a trio in slot 14, and
      an empty node in slot 15. */
  function Throng(): seq<Tree> {
    [Pair()] + Run(1, 13) + [Trio(), Bare()]
  }

  lemma ThrongFacts()
    ensures var ss := Throng();
      && AllWellFormed(ss) && |LeavesOf(ss)| == 18 && Free(ss) == 0 && Count(ss[0]) == 2 && Count(ss[14]) == 3
      && ss[0] == Pair() && ss[14] == Trio() && ss[15] == Bare() && Count(ss[15]) == 0
      && forall i :: 1 <= i < 14 ==> ss[i] == Leaf(i)
  {
    CrowdFacts();
    RunFacts(1, 13);
    RunFacts(200, 3);
    RunFacts(100, 2);
    BlankFacts(13);
    BlankFacts(14);
    BlankFacts(16);
    One(Trio());
    One(Pair());
    One(Bare());
    LeavesOfAppend(Run(200, 3), Blank(13));
    SlotsOf(Run(200, 3) + Blank(13));
    hide LeavesOf;
    hide Tally;
    var two := [Trio(), Bare()];
    assert two == [Trio()] + [Bare()];
    LeavesOfAppend([Trio()], [Bare()]);
    TallyAppend([Trio()], [Bare()], EmptyKind);
    LeavesOfAppend([Pair()] + Run(1, 13), two);
    LeavesOfAppend([Pair()], Run(1, 13));
    TallyAppend([Pair()] + Run(1, 13), two, EmptyKind);
    TallyAppend([Pair()], Run(1, 13), EmptyKind);
  }

  /** A node of leaves is left as it is. */
  lemma FlatStays(ss: seq<Tree>)
    requires |ss| == FAN_OUT && forall i :: 0 <= i < |ss| ==> ss[i].Leaf? || ss[i].Empty?
    ensures WellFormed(Node(ss)) && Compact(Node(ss)) == Node(ss)
  {
    FlatNormal(ss);
    assert forall i :: 0 <= i < |ss| ==> NothingFits(ss[i]);
    UnchangedWhen(Node(ss));
    hide *;
  }

  lemma {:induction false} NoneFit(ts: seq<Tree>, i: nat, free: int, j: nat)
    requires i <= j <= |ts| && forall k :: i <= k < j ==> !IsMeta(ts[k]) || Count(ts[k]) > free + 1
    ensures FreeFrom(ts, i, free, j) == free
    decreases j - i
  {
    if i < j {
      NoneFit(ts, i + 1, free, j);
    }
  }

  lemma ThrongStays()
    ensures var ss := Throng(); AllWellFormed(ss) && Stays(ss, 0) && Stays(ss, 14) && !Stays(ss, 15)
  {
    ThrongFacts();
    assert IsMeta(Pair()) && IsMeta(Trio()) && |Throng()| == 16;
    hide LeavesOf;
    hide Tally;
    hide Leaves;
    hide Throng;
    hide Pair;
    hide Trio;
    hide Bare;
    hide Run;
    hide AllWellFormed;
    hide WellFormed;
    hide FreeFrom;
    var ss := Throng();
    NoneFit(ss, 0, 0, 14);
    NoneFit(ss, 0, 0, 15);
    NoneFit(ss, 0, 0, 0);
  }

  lemma ThrongSlots()
    ensures AllWellFormed(Throng()) && WellFormed(Pair()) && WellFormed(Trio())
    ensures var r := CompactNode(Throng());
      && |r| == 16 && r[0] == Compact(Pair()) && r[14] == Compact(Trio()) && !IsMeta(r[15]) && |LeavesOf(r)| == 18
      && forall i :: 1 <= i < 14 ==> r[i] == Leaf(i)
  {
    ThrongFacts();
    ThrongStays();
    hide *;
    var ss := Throng();
    SlotWellFormed(ss, 0);
    SlotWellFormed(ss, 14);
    assert ss[0] == Pair() && ss[14] == Trio();
    SlotKeeps(ss, 0);
    SlotKeeps(ss, 14);
    SlotKeeps(ss, 15);
    forall i | 1 <= i < 14 ensures CompactNode(ss)[i] == Leaf(i) {
      SlotKeeps(ss, i);
    }
    NodeLeaves(ss);
  }

  lemma SlotWellFormed(ss: seq<Tree>, i: nat)
    requires AllWellFormed(ss) && i < 16
    ensures |ss| == |CompactNode(ss)| == 16 && WellFormed(ss[i])
  {
  }

  lemma FlatTwo()
    ensures WellFormed(Pair()) && Compact(Pair()) == Pair() && Count(Pair()) == 2
    ensures WellFormed(Trio()) && Compact(Trio()) == Trio() && Count(Trio()) == 3
  {
    hide *;
    ThrongFacts();
    MixFlat(100, 2);
    MixFlat(200, 3);
    SlotWellFormed(Throng(), 0);
    assert Throng()[0] == Pair() && Throng()[14] == Trio();
    PairIs();
  }

  lemma PairIs()
    ensures Pair() == Node(Run(100, 2) + Blank(14)) && Trio() == Node(Run(200, 3) + Blank(13))
  {
  }

  /** Leaves and then free slots. */
  lemma MixFlat(first: nat, n: nat)
    requires n <= 16
    ensures WellFormed(Node(Run(first, n) + Blank(16 - n)))
    ensures Compact(Node(Run(first, n) + Blank(16 - n))) == Node(Run(first, n) + Blank(16 - n))
  {
    RunFacts(first, n);
    BlankFacts(16 - n);
    FlatStays(Run(first, n) + Blank(16 - n));
    hide LeavesOf;
    hide Compact;
    hide WellFormed;
  }

  /** The pair stays in slot 0 although the empty node's slot becomes free after it was
      looked at: with more than 16 leaves the pass is not repeated. */
  lemma ThrongKeeps()
    ensures WellFormed(Node(Throng()))
    ensures Compact(Node(Throng())) ==
      Node([Node([Leaf(100), Leaf(101)] + Blank(14))] + Run(1, 13) + [Node(Run(200, 3) + Blank(13)), Empty])
  {
    hide *;
    ThrongFacts();
    ThrongSlots();
    FlatTwo();
    var r := CompactNode(Throng());
    NotAlone(r);
    ThrongLast(r);
    NodeOf(Throng());
    ThrongForm(r);
  }

  lemma NodeOf(ss: seq<Tree>)
    requires AllWellFormed(ss) && !LoneShortcut(CompactNode(ss))
    ensures WellFormed(Node(ss)) && Compact(Node(ss)) == Node(CompactNode(ss))
  {
    assert WellFormed(Node(ss));
    hide CompactNode;
    hide LoneShortcut;
  }

  lemma ThrongForm(r: seq<Tree>)
    requires |r| == 16 && r[0] == Pair() && r[14] == Trio() && r[15] == Empty
    requires forall i :: 1 <= i < 14 ==> r[i] == Leaf(i)
    ensures r == [Node([Leaf(100), Leaf(101)] + Blank(14))] + Run(1, 13) + [Node(Run(200, 3) + Blank(13)), Empty]
  {
    assert Run(100, 2) == [Leaf(100), Leaf(101)];
    assert Pair() == Node([Leaf(100), Leaf(101)] + Blank(14)) && Trio() == Node(Run(200, 3) + Blank(13));
    hide Pair;
    hide Trio;
    hide Blank;
    RunFacts(1, 13);
    assert r == [Pair()] + Run(1, 13) + [Trio(), Empty];
  }

  lemma NotAlone(r: seq<Tree>)
    requires |r| == 16 && r[1].Leaf? && r[2].Leaf?
    ensures !LoneShortcut(r)
  {
    if LoneShortcut(r) {
      AloneIsFree(r, 1);
    }
  }

  lemma ThrongLast(r: seq<Tree>)
    requires |r| == 16 && |LeavesOf(r)| == 18 && Count(r[0]) == 2 && Count(r[14]) == 3 && !IsMeta(r[15])
    requires forall i :: 1 <= i < 14 ==> r[i] == Leaf(i)
    ensures r[15] == Empty
  {
    RunFacts(1, 13);
    assert r == [r[0]] + Run(1, 13) + [r[14]] + [r[15]];
    One(r[0]);
    One(r[14]);
    One(r[15]);
    hide LeavesOf;
    LeavesOfAppend([r[0]] + Run(1, 13) + [r[14]], [r[15]]);
    LeavesOfAppend([r[0]] + Run(1, 13), [r[14]]);
    LeavesOfAppend([r[0]], Run(1, 13));
  }

  // ----- why a pass is repeated

  /** A pair in slot 0, leaves in slots 1 to 13, empty nodes in slots 14 and 15. */
  function Queue(): seq<Tree> {
    [Pair()] + Run(1, 13) + [Bare(), Bare()]
  }

  /** One pass leaves a child although the branch has 15 leaves only: the pair is looked
      at before the empty nodes make room for it. Another pass is needed, and puts the
      pair's leaves into the slots that are free by then. */
  lemma RetryNeeded()
    ensures AllNormal(Queue()) && |LeavesOf(Queue())| == 15
    ensures Pass(Queue(), 0) == [Pair()] + Run(1, 13) + [Empty, Empty]
    ensures Compress.Compress(Queue()) == [Leaf(100)] + Run(1, 13) + [Leaf(101), Empty]
  {
    QueueFacts();
    QueueNormal();
    hide *;
    QueuePass();
    RoomPass();
    Retried(Queue(), Room(), [Leaf(100)] + Run(1, 13) + [Leaf(101), Empty]);
  }

  /** The queue after one pass. */
  function Room(): seq<Tree> {
    [Pair()] + Run(1, 13) + [Empty, Empty]
  }

  lemma QueueFacts()
    ensures var ts := Queue();
      && |ts| == 16 && |LeavesOf(ts)| == 15 && Free(ts) == 0 && ts[0] == Pair() && ts[14] == Bare() && ts[15] == Bare()
      && forall i :: 1 <= i < 14 ==> ts[i] == Leaf(i)
    ensures Leaves(Bare()) == [] && Leaves(Pair()) == [100, 101]
    ensures Room() == Queue()[14 := Empty][15 := Empty] && Free(Room()) == 2
    ensures Room() == [Pair()] + Run(1, 13) + [Empty, Empty]
  {
    CrowdFacts();
    RunFacts(1, 13);
    PairLeaves();
    BlankFacts(16);
    BlankFacts(2);
    assert Blank(2) == [Empty, Empty];
    var two := [Bare(), Bare()];
    assert two == [Bare()] + [Bare()];
    One(Pair());
    One(Bare());
    SlotsOf(Blank(16));
    hide LeavesOf;
    hide Tally;
    LeavesOfAppend([Bare()], [Bare()]);
    TallyAppend([Bare()], [Bare()], EmptyKind);
    LeavesOfAppend([Pair()] + Run(1, 13), two);
    LeavesOfAppend([Pair()], Run(1, 13));
    TallyAppend([Pair()] + Run(1, 13), two, EmptyKind);
    TallyAppend([Pair()] + Run(1, 13), [Empty, Empty], EmptyKind);
    TallyAppend([Pair()], Run(1, 13), EmptyKind);
  }

  lemma PairLeaves()
    ensures Leaves(Pair()) == [100, 101]
  {
    RunFacts(100, 2);
    BlankFacts(14);
    assert Run(100, 2) == [Leaf(100)] + [Leaf(101)];
    One(Leaf(100));
    One(Leaf(101));
    SlotsOf(Run(100, 2) + Blank(14));
    hide LeavesOf;
    LeavesOfAppend([Leaf(100)], [Leaf(101)]);
    LeavesOfAppend(Run(100, 2), Blank(14));
  }

  /** A pass goes by slots that nothing fits from. */
  lemma {:induction false} PassSkips(ts: seq<Tree>, i: nat, j: nat)
    requires i <= j <= |ts| && forall k :: i <= k < j ==> !Fits(ts, k)
    ensures Pass(ts, i) == Pass(ts, j)
    decreases j - i
  {
    hide Fits;
    if i < j {
      PassSkips(ts, i + 1, j);
    }
  }

  /** A child without leaves just goes. */
  lemma PassDrops(ts: seq<Tree>, i: nat)
    requires i < |ts| && IsMeta(ts[i]) && Leaves(ts[i]) == []
    ensures Pass(ts, i) == Pass(ts[i := Empty], i + 1)
    ensures Free(ts[i := Empty]) == Free(ts) + 1
  {
    TallyUpdate(ts, i, Empty, EmptyKind);
    hide Tally;
  }

  lemma NotFitting(ts: seq<Tree>, i: nat)
    requires i < |ts| && (!IsMeta(ts[i]) || Count(ts[i]) > Free(ts) + 1)
    ensures !Fits(ts, i)
  {
  }

  lemma QueuePass()
    ensures Pass(Queue(), 0) == Room()
  {
    QueueFacts();
    assert IsMeta(Bare()) && IsMeta(Pair()) && forall i: nat :: !IsMeta(Leaf(i));
    hide *;
    var ts := Queue();
    CountIs(Pair());
    NotFitting(ts, 0);
    forall k | 0 <= k < 14 ensures !Fits(ts, k) {
      NotFitting(ts, k);
    }
    PassSkips(ts, 0, 14);
    PassDrops(ts, 14);
    PassDrops(ts[14 := Empty], 15);
    PassEnd(Room());
  }

  lemma CountIs(t: Tree)
    ensures Count(t) == |Leaves(t)|
  {
  }

  lemma PassEnd(ts: seq<Tree>)
    ensures Pass(ts, |ts|) == ts
  {
  }

  lemma RoomPass()
    ensures Pass(Room(), 0) == [Leaf(100)] + Run(1, 13) + [Leaf(101), Empty] && Kids(Pass(Room(), 0)) == 0
    ensures Kids(Room()) > 0
  {
    QueueFacts();
    var ts := Room();
    assert IsMeta(ts[0]);
    TallyPositive(ts, MetaKind);
    RoomFold();
    var us := FoldSlot(ts, 0);
    TallyPositive(us, MetaKind);
    hide Tally;
    hide LeavesOf;
    hide Leaves;
    hide FoldSlot;
    hide Room;
    RunFacts(1, 13);
    forall k | 1 <= k < 16 ensures !Fits(us, k) {
      NotFitting(us, k);
    }
    PassSkips(us, 1, 16);
    PassEnd(us);
  }

  /** The pair is folded into its own slot and the first free one. */
  lemma RoomFold()
    ensures FoldSlot(Room(), 0) == [Leaf(100)] + Run(1, 13) + [Leaf(101), Empty]
  {
    QueueFacts();
    RunFacts(1, 13);
    var ts := Room();
    assert Fits(ts, 0);
    var us := ts[0 := Empty];
    FoldPlaces(ts, 0, 0);
    FreeRun();
    forall k | 0 <= k < 16
      ensures |FoldSlot(ts, 0)| == 16 && FoldSlot(ts, 0)[k] == ([Leaf(100)] + Run(1, 13) + [Leaf(101), Empty])[k]
    {
      FoldPlaces(ts, 0, k);
    }
    hide *;
  }

  lemma FreeRun()
    ensures var us := Room()[0 := Empty]; Free(us[..0]) == 0 && Free(us[..14]) == 1 && Free(us[..15]) == 2
  {
    var us := Room()[0 := Empty];
    RunFacts(1, 13);
    assert us[..14] == [Empty] + Run(1, 13) && us[..15][..14] == us[..14] && us[14].Empty?;
    One(Empty);
    TallyAppend([Empty], Run(1, 13), EmptyKind);
  }

  lemma Retried(ts: seq<Tree>, us: seq<Tree>, vs: seq<Tree>)
    requires |ts| == FAN_OUT && |LeavesOf(ts)| < FAN_OUT && Pass(ts, 0) == us && Kids(us) > 0
    requires |us| == FAN_OUT && Pass(us, 0) == vs && Kids(vs) == 0
    ensures Compress.Compress(ts) == vs
  {
    hide LeavesOf;
    hide Tally;
    hide Pass;
    PassFacts(ts, 0);
    PassProgress(ts);
  }

  lemma QueueNormal()
    ensures AllNormal(Queue())
  {
    RunFacts(1, 13);
    RunFacts(100, 2);
    BlankFacts(14);
    BlankFacts(16);
    FlatNormal(Run(100, 2) + Blank(14));
    FlatNormal(Blank(16));
  }

  /** A node without children is in normal form. */
  lemma FlatNormal(ss: seq<Tree>)
    requires |ss| == FAN_OUT && forall i :: 0 <= i < |ss| ==> !IsMeta(ss[i])
    ensures Normal(Node(ss))
  {
    TallyPositive(ss, MetaKind);
    hide LeavesOf;
    hide Tally;
    if LoneShortcut(ss) {
      LoneLeaves(ss);
    }
  }
}
