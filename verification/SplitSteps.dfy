/** How an insert changes resident pages: writing a leaf, splitting a page under its parent
    and growing a new root. */
module SplitSteps {
  import opened Types
  import opened Node
  import opened BPlusTree
  import opened CacheState
  import opened CacheSteps
  import opened LoadSteps

  // --- Writing a leaf ---

  function WriteLeaf(s: State, f: FrameId, es: seq<Entry>): State
    requires f < |s.frames| && s.frames[f].node.Leaf?
  {
    s.(frames := s.frames[f := s.frames[f].(node := s.frames[f].node.(entries := es), dirty := true)])
  }

  /** Two resident frames never hold the same address. */
  lemma OneHomePerAddress(s: State, st: Store, f: FrameId, h: FrameId)
    requires Stored(s, st) && InTree(s, f) && InTree(s, h) && s.frames[f].remote == s.frames[h].remote
    ensures f == h
  {
    assert Mirrors(s, st, f) && Mirrors(s, st, h);
  }

  /** Changing the entries of a resident leaf changes the logical store at its address only. */
  lemma WriteLeafKeeps(s: State, st: Store, f: FrameId, es: seq<Entry>)
    requires Inv(s, st, {}) && InTree(s, f) && s.frames[f].node.Leaf? && NodeOk(s.frames[f].node.(entries := es))
    ensures s.frames[f].remote in st && st[s.frames[f].remote].Leaf?
    ensures Inv(WriteLeaf(s, f, es), WithLeaf(st, s.frames[f].remote, es), {})
  {
    hide Accounted;
    assert Mirrors(s, st, f);
    var a, s' := s.frames[f].remote, WriteLeaf(s, f, es);
    var st' := WithLeaf(st, a, es);
    SamePlaces(s, s', {});
    assert NodeOk(st'[a]);
    assert forall x | x in st && x != a :: NodeOk(st[x]) ==> NodeOk(st'[x]);
    assert NodesOk(st');
    forall h: FrameId | InTree(s', h) ensures FrameSound(s', h) && Mirrors(s', st', h) {
      assert FrameSound(s, h) && Mirrors(s, st, h);
      if h != f {
        KeepFrame(s, s', h);
        KeepSays(s, s', h, st[s.frames[h].remote]);
      }
    }
    forall x | x in st' ensures DiskSound(s', st', x) {
      assert DiskSound(s, st, x);
    }
  }

  // --- What the pages of a split say ---

  lemma SplitSays(s: State, n: Node<Slot>, n': Node<GlobalAddress>)
    requires NodeOk(n) && n.Full() && Says(s, n, n')
    ensures NodeOk(n') && n'.Full() && Split(n).sep == Split(n').sep
    ensures Says(s, Split(n).left, Split(n').left) && Says(s, Split(n).right, Split(n').right)
  {
    if n.Inner? {
      var h := Split(n);
      forall i | 0 <= i < |h.right.children| ensures LeadsTo(s, h.right.children[i], Split(n').right.children[i]) {
        var o := |h.left.children| + i;
        assert LeadsTo(s, n.children[o], n'.children[o]);
      }
    }
  }

  lemma InsertSays(s: State, n: Node<Slot>, n': Node<GlobalAddress>, sep: Key, sl: Slot, b: GlobalAddress)
    requires n.Inner? && |n.children| == |n.keys| + 1 && Says(s, n, n') && LeadsTo(s, sl, b)
    ensures Says(s, InnerInsert(n, sep, sl), InnerInsert(n', sep, b))
  {
    var m, p := InnerInsert(n, sep, sl), LowerBound(n.keys, sep);
    forall i | 0 <= i < |m.children| ensures LeadsTo(s, m.children[i], InnerInsert(n', sep, b).children[i]) {
      if i != p + 1 {
        assert LeadsTo(s, n.children[OldSlot(p, i)], n'.children[OldSlot(p, i)]);
      }
    }
  }

  // --- Bitmaps (the 64-bit shifts of split and insert) ---

  predicate WidenBit(bits: set<nat>, p: nat, b: bool, j: nat) {
    if j <= p then j in bits else if j == p + 1 then b else j - 1 in bits
  }

  /** Room for bit p + 1: the bits above p move up by one. */
  function Widen(bits: set<nat>, p: nat, b: bool): set<nat> {
    set j | 0 <= j < 64 && WidenBit(bits, p, b, j)
  }

  function LowBits(bits: set<nat>, n: nat): set<nat> {
    set j | j in bits && j < n
  }

  predicate HighBit(bits: set<nat>, n: nat, j: nat) {
    j + n in bits
  }

  function HighBits(bits: set<nat>, n: nat): set<nat> {
    set j | 0 <= j < 64 && HighBit(bits, n, j)
  }

  // --- The parent after a split ---

  /** BTreeInner::insert on frame g: separator, child slot and bitmap bit go in together. */
  function Hang(page: Page, sep: Key, sl: Slot): Page
    requires page.node.Inner? && |page.node.children| == |page.node.keys| + 1
  {
    page.(node := InnerInsert(page.node, sep, sl), dirty := true,
          bitmap := Widen(page.bitmap, LowerBound(page.node.keys, sep), sl.Tagged?))
  }

  /** Child slot i of frame g holds frame f, which is about to be cut at sep. */
  ghost predicate CutAt(s: State, f: FrameId, g: FrameId, i: nat, sep: Key) {
    && InTree(s, f) && InTree(s, g) && f != g && FrameSound(s, g) && s.frames[g].node.Inner? && !s.frames[g].node.Full()
    && SlotSound(s, g, i) && s.frames[g].node.children[i] == Tagged(f)
    && s.frames[f].node.lo < sep < s.frames[f].node.hi
  }

  /** The half that stays keeps its slot, now ending at the separator. */
  lemma HangKeepsCutSlot(s: State, s': State, f: FrameId, g: FrameId, i: nat, sep: Key, sl: Slot)
    requires CutAt(s, f, g, i, sep) && |s'.frames| == |s.frames| && s'.frames[g] == Hang(s.frames[g], sep, sl)
    requires InTree(s', f) && s'.frames[f].parent == InPool(g) && s'.frames[f].node.lo == s.frames[f].node.lo
    requires s'.frames[f].node.hi == sep && s'.frames[f].node.Level() == s.frames[f].node.Level()
    ensures SlotSound(s', g, i)
  {
    InnerInsertOk(s.frames[g].node, i, sep, sl);
  }

  /** Every other child keeps its slot, which may have moved up by one. */
  lemma HangKeepsSlot(s: State, s': State, f: FrameId, g: FrameId, i: nat, sep: Key, sl: Slot, j: nat)
    requires CutAt(s, f, g, i, sep) && |s'.frames| == |s.frames| && s'.frames[g] == Hang(s.frames[g], sep, sl)
    requires forall c: FrameId {:trigger SameFace(s, s', c)} | InTree(s, c) && s.frames[c].parent == InPool(g)
             && c != f ::
               SameFace(s, s', c)
    requires j <= |s.frames[g].node.keys| + 1 && j != i && j != i + 1
    ensures SlotSound(s', g, j)
  {
    var n, o := s.frames[g].node, OldSlot(i, j);
    SeparatorPlace(n, i, sep);
    InnerInsertSlot(n, i, sep, sl, j);
    assert SlotSound(s, g, o);
    if n.children[o].Tagged? {
      if n.children[o] == Tagged(f) { OneSlot(s, g, i, o); }
      assert SameFace(s, s', n.children[o].frame);
    }
  }

  lemma HangKeepsSlots(s: State, s': State, f: FrameId, g: FrameId, i: nat, sep: Key, sl: Slot)
    requires CutAt(s, f, g, i, sep) && |s'.frames| == |s.frames| && s'.frames[g] == Hang(s.frames[g], sep, sl)
    requires InTree(s', f) && s'.frames[f].parent == InPool(g) && s'.frames[f].node.lo == s.frames[f].node.lo
    requires s'.frames[f].node.hi == sep && s'.frames[f].node.Level() == s.frames[f].node.Level()
    requires forall c: FrameId {:trigger SameFace(s, s', c)} | InTree(s, c) && s.frames[c].parent == InPool(g)
             && c != f ::
               SameFace(s, s', c)
    requires sl.Tagged? ==> InTree(s', sl.frame) && s'.frames[sl.frame].parent == InPool(g)
                            && s'.frames[sl.frame].node.lo == sep && s'.frames[sl.frame].node.hi == s.frames[f].node.hi
                            && s'.frames[sl.frame].node.Level() == s.frames[f].node.Level()
    ensures SlotsSound(s', g)
    ensures forall x | x in s.frames[g].node.children :: x in s'.frames[g].node.children
    ensures sl in s'.frames[g].node.children
    ensures LowerBound(s.frames[g].node.keys, sep) == i
  {
    hide InTree;
    var n := s.frames[g].node;
    InnerInsertOk(n, i, sep, sl);
    var m := s'.frames[g].node;
    forall j | 0 <= j < |m.children| ensures SlotSound(s', g, j) {
      if j == i {
        HangKeepsCutSlot(s, s', f, g, i, sep, sl);
      } else if j != i + 1 {
        HangKeepsSlot(s, s', f, g, i, sep, sl, j);
      } else {
        assert m.children[j] == sl;
      }
    }
    forall x | x in n.children ensures x in m.children {
      assert n.children == n.children[..i + 1] + n.children[i + 1..];
    }
    assert m.children[i + 1] == sl;
  }

  // --- Splitting a leaf ---

  /** The half of a split page that stays where it was. */
  function Cut(page: Page): Page
    requires NodeOk(page.node) && page.node.Full()
  {
    var h := Split(page.node);
    page.(node := h.left, dirty := true,
          bitmap := if h.left.Leaf? then page.bitmap else LowBits(page.bitmap, |h.left.children|))
  }

  /** The other half, as a page of its own. */
  function Sibling(page: Page, b: GlobalAddress, parent: Parent, pos: PosState): Page
    requires NodeOk(page.node) && page.node.Full()
  {
    var h := Split(page.node);
    Page(b, if h.left.Leaf? then {} else HighBits(page.bitmap, |h.left.children|), parent, pos, true, h.right)
  }

  ghost function HalvedAt(st: Store, a: GlobalAddress, b: GlobalAddress): Store
    requires a in st && NodeOk(st[a]) && st[a].Full()
  {
    st[a := Split(st[a]).left][b := Split(st[a]).right]
  }

  /** The leaf keeps its lower half; the upper half is written to the backend at b. */
  function SplitLeafTop(s: State, f: FrameId, b: GlobalAddress): State
    requires f < |s.frames| && NodeOk(s.frames[f].node) && s.frames[f].node.Full()
  {
    s.(frames := s.frames[f := Cut(s.frames[f])],
       disk := s.disk[b := Sibling(s.frames[f], b, NoParent, REMOTE)])
  }

  /** ... and the parent's slot for f is divided. */
  function SplitLeafUnder(s: State, f: FrameId, g: FrameId, b: GlobalAddress): State
    requires f < |s.frames| && NodeOk(s.frames[f].node) && s.frames[f].node.Full()
    requires g < |s.frames| && s.frames[g].node.Inner? && |s.frames[g].node.children| == |s.frames[g].node.keys| + 1
  {
    var s1 := SplitLeafTop(s, f, b);
    s1.(frames := s1.frames[g := Hang(s.frames[g], Split(s.frames[f].node).sep, Untagged(b))])
  }

  ghost predicate FullLeaf(s: State, f: FrameId) {
    InTree(s, f) && s.frames[f].node.Leaf? && NodeOk(s.frames[f].node) && s.frames[f].node.Full()
  }

  lemma HalvedNodesOk(st: Store, a: GlobalAddress, b: GlobalAddress)
    requires NodesOk(st) && a in st && NodeOk(st[a]) && st[a].Full()
    ensures NodesOk(HalvedAt(st, a, b))
  {
    SplitOk(st[a]);
    var st' := HalvedAt(st, a, b);
    forall x | x in st' ensures NodeOk(st'[x]) {
      if x != a && x != b {
        assert NodeOk(st[x]);
      }
    }
  }

  /** Splitting a root leaf splits it in the logical store. */
  lemma SplitLeafTopKeeps(s: State, st: Store, f: FrameId, b: GlobalAddress)
    requires Inv(s, st, {}) && FullLeaf(s, f) && s.frames[f].parent == SuperRoot && b !in st
    ensures var a := s.frames[f].remote; a in st && NodeOk(st[a]) && st[a].Full()
    ensures Inv(SplitLeafTop(s, f, b), HalvedAt(st, s.frames[f].remote, b), {})
  {
    var a, s' := s.frames[f].remote, SplitLeafTop(s, f, b);
    assert FrameSound(s, f) && Mirrors(s, st, f);
    SplitSays(s, s.frames[f].node, st[a]);
    var st' := HalvedAt(st, a, b);
    HalvedNodesOk(st, a, b);
    SamePlaces(s, s', {});
    forall h: FrameId | InTree(s', h) ensures FrameSound(s', h) && Mirrors(s', st', h) {
      assert FrameSound(s, h) && Mirrors(s, st, h);
      if h == f {
        SplitOk(s.frames[f].node);
      } else {
        KeepFrame(s, s', h);
        KeepSays(s, s', h, st[s.frames[h].remote]);
      }
    }
    forall x | x in st' ensures DiskSound(s', st', x) {
      assert x != b ==> DiskSound(s, st, x);
    }
  }

  /** What a split under a parent needs of the pool and of the logical store. */
  ghost predicate SplitReady(s: State, st: Store, f: FrameId, g: FrameId, i: nat, b: GlobalAddress) {
    && Swizzled(s) && Stored(s, st) && InTree(s, f) && InTree(s, g) && f != g && s.frames[f].parent == InPool(g)
    && NodeOk(s.frames[f].node) && s.frames[f].node.Full()
    && CutAt(s, f, g, i, Split(s.frames[f].node).sep)
    && b !in st
    && var ga := s.frames[g].remote;
    && ga in st && NodeOk(st[ga]) && st[ga].Inner? && i < |st[ga].children|
    && st[ga].children[i] == s.frames[f].remote && s.frames[f].remote in st
    && NodeOk(st[s.frames[f].remote]) && st[s.frames[f].remote].Full()
    && NodesOk(SplitUnder(st, ga, i, b))
  }

  lemma SplitLeafUnderParent(s: State, st: Store, f: FrameId, g: FrameId, i: nat, b: GlobalAddress)
    requires SplitReady(s, st, f, g, i, b) && s.frames[f].node.Leaf?
    ensures FrameSound(SplitLeafUnder(s, f, g, b), g)
    ensures forall x | x in s.frames[g].node.children :: x in SplitLeafUnder(s, f, g, b).frames[g].node.children
  {
    var s', sep := SplitLeafUnder(s, f, g, b), Split(s.frames[f].node).sep;
    SplitOk(s.frames[f].node);
    HangKeepsSlots(s, s', f, g, i, sep, Untagged(b));
    assert FrameSound(s, g);
  }

  lemma SplitLeafUnderSwizzling(s: State, st: Store, f: FrameId, g: FrameId, i: nat, b: GlobalAddress)
    requires SplitReady(s, st, f, g, i, b) && s.frames[f].node.Leaf?
    ensures Swizzled(SplitLeafUnder(s, f, g, b))
  {
    var s' := SplitLeafUnder(s, f, g, b);
    SplitLeafUnderParent(s, st, f, g, i, b);
    forall h: FrameId | InTree(s', h) ensures FrameSound(s', h) {
      assert FrameSound(s, h);
      if h == f {
        SplitOk(s.frames[f].node);
      } else if h != g {
        KeepFrame(s, s', h);
      }
    }
  }

  lemma SplitLeafUnderMirrors(s: State, st: Store, f: FrameId, g: FrameId, i: nat, b: GlobalAddress)
    requires SplitReady(s, st, f, g, i, b) && s.frames[f].node.Leaf?
    ensures var s', st' := SplitLeafUnder(s, f, g, b), SplitUnder(st, s.frames[g].remote, i, b);
            forall h: FrameId | InTree(s', h) :: Mirrors(s', st', h)
  {
    var s', sep := SplitLeafUnder(s, f, g, b), Split(s.frames[f].node).sep;
    var a, ga := s.frames[f].remote, s.frames[g].remote;
    assert Mirrors(s, st, f) && Mirrors(s, st, g);
    SplitSays(s, s.frames[f].node, st[a]);
    forall h: FrameId | InTree(s', h) ensures Mirrors(s', SplitUnder(st, ga, i, b), h) {
      assert FrameSound(s, h) && Mirrors(s, st, h);
      if h == g {
        KeepSays(s, s', g, st[ga]);
        InsertSays(s', s.frames[g].node, st[ga], sep, Untagged(b), b);
      } else if h != f {
        KeepSays(s, s', h, st[s.frames[h].remote]);
      }
    }
  }

  /** Splitting a full leaf under its parent splits it in the logical store. */
  lemma SplitLeafUnderKeeps(s: State, st: Store, f: FrameId, g: FrameId, i: nat, b: GlobalAddress)
    requires Inv(s, st, {}) && SplitReady(s, st, f, g, i, b) && s.frames[f].node.Leaf?
    ensures Inv(SplitLeafUnder(s, f, g, b), SplitUnder(st, s.frames[g].remote, i, b), {})
  {
    var s', st' := SplitLeafUnder(s, f, g, b), SplitUnder(st, s.frames[g].remote, i, b);
    SplitLeafUnderSwizzling(s, st, f, g, i, b);
    SplitLeafUnderMirrors(s, st, f, g, i, b);
    SamePlaces(s, s', {});
    forall x | x in st' ensures DiskSound(s', st', x) {
      SplitLeafUnderDisk(s, st, f, g, i, b, x);
    }
  }

  /** The sibling's backend page is the upper half, and the pages that changed are dirty frames. */
  lemma SplitLeafUnderDisk(s: State, st: Store, f: FrameId, g: FrameId, i: nat, b: GlobalAddress, x: GlobalAddress)
    requires Inv(s, st, {}) && SplitReady(s, st, f, g, i, b) && s.frames[f].node.Leaf?
    requires x in SplitUnder(st, s.frames[g].remote, i, b)
    ensures DiskSound(SplitLeafUnder(s, f, g, b), SplitUnder(st, s.frames[g].remote, i, b), x)
  {
    assert Mirrors(s, st, f) && Mirrors(s, st, g);
    SplitSays(s, s.frames[f].node, st[s.frames[f].remote]);
    assert x != b ==> DiskSound(s, st, x);
  }

  // --- Splitting an inner page ---

  /** update_all_parent_ptr on frame p: every frame the slots name gets p as its parent. */
  function Adopt(frames: seq<Page>, cs: seq<Slot>, p: FrameId): seq<Page> {
    seq(|frames|, x requires 0 <= x < |frames| =>
      if Tagged(x) in cs then frames[x].(parent := InPool(p)) else frames[x])
  }

  /** Frame f keeps its lower half; frame p becomes the upper half, filed under b, beside it. */
  function SplitInnerTop(s: State, f: FrameId, p: FrameId, b: GlobalAddress): State
    requires f < |s.frames| && p < |s.frames| && NodeOk(s.frames[f].node) && s.frames[f].node.Full()
    requires s.frames[f].node.Inner?
  {
    s.(frames := Adopt(s.frames, Split(s.frames[f].node).right.children, p)
                   [f := Cut(s.frames[f])][p := Sibling(s.frames[f], b, s.frames[f].parent, HOT)],
       pages := s.pages[b := p])
  }

  /** ... and the parent's slot for f is divided. */
  function SplitInnerUnder(s: State, f: FrameId, g: FrameId, p: FrameId, b: GlobalAddress): State
    requires f < |s.frames| && p < |s.frames| && NodeOk(s.frames[f].node) && s.frames[f].node.Full()
    requires s.frames[f].node.Inner?
    requires g < |s.frames| && s.frames[g].node.Inner? && |s.frames[g].node.children| == |s.frames[g].node.keys| + 1
  {
    var s1 := SplitInnerTop(s, f, p, b);
    s1.(frames := s1.frames[g := Hang(s.frames[g], Split(s.frames[f].node).sep, Tagged(p))])
  }

  ghost predicate FullInner(s: State, f: FrameId) {
    InTree(s, f) && s.frames[f].node.Inner? && FrameSound(s, f) && s.frames[f].node.Full()
  }

  /** A frame whose page is its own business: neither f nor p, nor the frame f hangs from. */
  ghost predicate Bystander(s: State, s': State, f: FrameId, p: FrameId, x: FrameId)
    requires f < |s.frames| && s.frames[f].node.Inner? && NodeOk(s.frames[f].node) && s.frames[f].node.Full()
  {
    && x < |s.frames| && x < |s'.frames|
    && s'.frames[x].pos == s.frames[x].pos && s'.frames[x].remote == s.frames[x].remote
    && s'.frames[x].node.Level() == s.frames[x].node.Level()
    && s'.frames[x].node.lo == s.frames[x].node.lo && s'.frames[x].node.hi == s.frames[x].node.hi
    && s'.frames[x].parent == (if Tagged(x) in Split(s.frames[f].node).right.children then InPool(p)
                               else s.frames[x].parent)
    && (s.frames[f].parent != InPool(x) ==> s'.frames[x].node == s.frames[x].node
                                            && s'.frames[x].bitmap == s.frames[x].bitmap)
  }

  /** What both kinds of inner split do to the pool. */
  ghost predicate InnerCut(s: State, s': State, f: FrameId, p: FrameId, b: GlobalAddress) {
    && FullInner(s, f) && p < |s.frames| && !InTree(s, p) && |s'.frames| == |s.frames|
    && s'.frames[f] == Cut(s.frames[f])
    && s'.frames[p] == Sibling(s.frames[f], b, s.frames[f].parent, HOT)
    && forall x: FrameId {:trigger Bystander(s, s', f, p, x)} | x < |s.frames| && x != f && x != p ::
       Bystander(s, s', f, p, x)
  }

  /** A frame in the pool hangs one level below its parent. */
  lemma LevelBelowParent(s: State, f: FrameId)
    requires Swizzled(s) && InTree(s, f)
    ensures forall g: FrameId | s.frames[f].parent == InPool(g) ::
              g < |s.frames| && s.frames[g].node.Level() == s.frames[f].node.Level() + 1
  {
    assert FrameSound(s, f);
    forall g: FrameId | s.frames[f].parent == InPool(g)
      ensures g < |s.frames| && s.frames[g].node.Level() == s.frames[f].node.Level() + 1
    {
      assert FrameSound(s, g);
      var i :| 0 <= i < |s.frames[g].node.children| && s.frames[g].node.children[i] == Tagged(f);
      assert SlotSound(s, g, i);
    }
  }

  /** A swizzled child of f is resident, is another frame, and is not the one f hangs from. */
  lemma ChildOf(s: State, f: FrameId, j: nat)
    requires Swizzled(s) && FullInner(s, f) && j < |s.frames[f].node.children| && s.frames[f].node.children[j].Tagged?
    ensures var x := s.frames[f].node.children[j].frame;
            && InTree(s, x) && s.frames[x].parent == InPool(f) && Fits(s.frames[x].node, s.frames[f].node, j)
            && x != f && s.frames[f].parent != InPool(x)
  {
    assert SlotSound(s, f, j);
    LevelBelowParent(s, f);
  }

  /** Which half a child goes to is settled by its slot. */
  lemma MovesIff(s: State, f: FrameId, j: nat)
    requires Swizzled(s) && FullInner(s, f) && j < |s.frames[f].node.children| && s.frames[f].node.children[j].Tagged?
    ensures s.frames[f].node.children[j] in Split(s.frames[f].node).right.children
            <==> j >= |Split(s.frames[f].node).left.children|
  {
    var n, h := s.frames[f].node, Split(s.frames[f].node);
    var c := |h.left.children|;
    if n.children[j] in h.right.children {
      var o :| 0 <= o < |h.right.children| && h.right.children[o] == n.children[j];
      assert n.children[c + o] == n.children[j];
      assert SlotSound(s, f, c + o) && SlotSound(s, f, j);
      OneSlot(s, f, c + o, j);
    }
    if j >= c {
      assert h.right.children[j - c] == n.children[j];
    }
  }

  lemma LeftHalfSlots(s: State, s': State, f: FrameId, p: FrameId, b: GlobalAddress)
    requires Swizzled(s) && InnerCut(s, s', f, p, b)
    ensures SlotsSound(s', f)
  {
    var n, h := s.frames[f].node, Split(s.frames[f].node);
    SplitOk(n);
    forall j | 0 <= j < |h.left.children| ensures SlotSound(s', f, j) {
      assert SlotSound(s, f, j) && h.left.children[j] == n.children[j];
      if n.children[j].Tagged? {
        ChildOf(s, f, j);
        MovesIff(s, f, j);
        assert Bystander(s, s', f, p, n.children[j].frame);
      }
    }
  }

  /** A slot of the right half is the slot of the old page its child and its bit came from. */
  lemma RightSlot(page: Page, b: GlobalAddress, j: nat)
    requires NodeOk(page.node) && page.node.Inner? && page.node.Full() && j < |Split(page.node).right.children|
    ensures var n, sib, k := page.node, Sibling(page, b, page.parent, HOT), |Split(page.node).left.children| + j;
            && k < |n.children| && k <= |n.keys|
            && sib.node.Inner? && j < |sib.node.children| && j <= |sib.node.keys| && sib.node.level == n.level
            && sib.node.children[j] == n.children[k] && (j in sib.bitmap <==> k in page.bitmap)
            && sib.node.ChildLo(j) == n.ChildLo(k) && sib.node.ChildHi(j) == n.ChildHi(k)
  {
    assert HighBit(page.bitmap, |Split(page.node).left.children|, j)
           <==> |Split(page.node).left.children| + j in page.bitmap;
  }

  lemma RightHalfSlot(s: State, s': State, f: FrameId, p: FrameId, b: GlobalAddress, j: nat)
    requires Swizzled(s) && InnerCut(s, s', f, p, b) && j < |Split(s.frames[f].node).right.children|
    ensures SlotSound(s', p, j)
  {
    var n, k := s.frames[f].node, |Split(s.frames[f].node).left.children| + j;
    RightSlot(s.frames[f], b, j);
    assert SlotSound(s, f, k);
    if n.children[k].Tagged? {
      ChildOf(s, f, k);
      MovesIff(s, f, k);
      assert Bystander(s, s', f, p, n.children[k].frame);
    }
  }

  lemma RightHalfSlots(s: State, s': State, f: FrameId, p: FrameId, b: GlobalAddress)
    requires Swizzled(s) && InnerCut(s, s', f, p, b)
    ensures SlotsSound(s', p)
  {
    var n, h := s.frames[f].node, Split(s.frames[f].node);
    SplitOk(n);
    var c := |h.left.children|;
    forall j | 0 <= j < |h.right.children| ensures SlotSound(s', p, j) {
      RightHalfSlot(s, s', f, p, b, j);
    }
    forall j | j in s'.frames[p].bitmap ensures j < |h.right.children| {
      assert HighBit(s.frames[f].bitmap, c, j);
    }
  }

  /** Frames elsewhere keep their slots. */
  lemma BystanderSlots(s: State, s': State, f: FrameId, p: FrameId, b: GlobalAddress, h: FrameId)
    requires Swizzled(s) && InnerCut(s, s', f, p, b)
    requires InTree(s, h) && h != f && s.frames[f].parent != InPool(h)
    ensures SlotsSound(s', h)
  {
    assert FrameSound(s, h) && Bystander(s, s', f, p, h);
    forall c: FrameId | InTree(s, c) && s.frames[c].parent == InPool(h) ensures SameFace(s, s', c) {
      assert Bystander(s, s', f, p, c);
      NotMoved(s, f, c);
    }
    KeepFrame(s, s', h);
  }

  lemma NotMoved(s: State, f: FrameId, c: FrameId)
    requires Swizzled(s) && FullInner(s, f) && InTree(s, c) && s.frames[c].parent != InPool(f)
    ensures Tagged(c) !in Split(s.frames[f].node).right.children
  {
    var n, h := s.frames[f].node, Split(s.frames[f].node);
    if Tagged(c) in h.right.children {
      var o :| 0 <= o < |h.right.children| && h.right.children[o] == Tagged(c);
      assert n.children[|h.left.children| + o] == Tagged(c);
      ChildOf(s, f, |h.left.children| + o);
    }
  }

  /** Frames elsewhere still hang from the frame they call parent. */
  lemma BystanderParent(s: State, s': State, f: FrameId, p: FrameId, b: GlobalAddress, h: FrameId)
    requires Swizzled(s) && InnerCut(s, s', f, p, b) && InTree(s, h) && h != f
    requires forall g: FrameId | s.frames[f].parent == InPool(g) :: g < |s.frames|
               && s'.frames[g].node.Inner? && s.frames[g].node.Inner?
               && forall x | x in s.frames[g].node.children :: x in s'.frames[g].node.children
    ensures ParentSound(s', h)
  {
    assert FrameSound(s, h) && Bystander(s, s', f, p, h);
    var n, hs := s.frames[f].node, Split(s.frames[f].node);
    if s.frames[h].parent == InPool(f) {
      var j :| 0 <= j < |n.children| && n.children[j] == Tagged(h);
      MovesIff(s, f, j);
      if j < |hs.left.children| {
        assert hs.left.children[j] == Tagged(h);
      }
    } else {
      NotMoved(s, f, h);
      if s.frames[h].parent.InPool? {
        assert Bystander(s, s', f, p, s.frames[h].parent.frame);
      }
    }
  }

  lemma SplitInnerTopIsCut(s: State, f: FrameId, p: FrameId, b: GlobalAddress)
    requires Swizzled(s) && FullInner(s, f) && p < |s.frames| && !InTree(s, p) && s.frames[f].parent == SuperRoot
    ensures InnerCut(s, SplitInnerTop(s, f, p, b), f, p, b)
  {
  }

  lemma SplitInnerUnderIsCut(s: State, f: FrameId, g: FrameId, p: FrameId, b: GlobalAddress)
    requires Swizzled(s) && FullInner(s, f) && p < |s.frames| && !InTree(s, p)
    requires s.frames[f].parent == InPool(g) && InTree(s, g) && FrameSound(s, g) && f != g && s.frames[g].node.Inner?
    ensures InnerCut(s, SplitInnerUnder(s, f, g, p, b), f, p, b)
  {
    var s', n, h := SplitInnerUnder(s, f, g, p, b), s.frames[f].node, Split(s.frames[f].node);
    if Tagged(g) in h.right.children {
      var o :| 0 <= o < |h.right.children| && h.right.children[o] == Tagged(g);
      assert n.children[|h.left.children| + o] == Tagged(g);
      ChildOf(s, f, |h.left.children| + o);
    }
    forall x: FrameId | x < |s.frames| && x != f && x != p ensures Bystander(s, s', f, p, x) {
    }
  }

  lemma SplitInnerUnderParent(s: State, st: Store, f: FrameId, g: FrameId, i: nat, p: FrameId, b: GlobalAddress)
    requires SplitReady(s, st, f, g, i, b) && FullInner(s, f) && p < |s.frames| && !InTree(s, p)
    ensures var s' := SplitInnerUnder(s, f, g, p, b);
            && SlotsSound(s', g) && s'.frames[g].node.Inner?
            && (forall x | x in s.frames[g].node.children :: x in s'.frames[g].node.children)
            && Tagged(p) in s'.frames[g].node.children
  {
    var s', sep := SplitInnerUnder(s, f, g, p, b), Split(s.frames[f].node).sep;
    SplitInnerUnderIsCut(s, f, g, p, b);
    SplitOk(s.frames[f].node);
    forall c: FrameId | InTree(s, c) && s.frames[c].parent == InPool(g) && c != f ensures SameFace(s, s', c) {
      assert Bystander(s, s', f, p, c);
      NotMoved(s, f, c);
    }
    HangKeepsSlots(s, s', f, g, i, sep, Tagged(p));
  }

  lemma SplitInnerUnderSwizzling(s: State, st: Store, f: FrameId, g: FrameId, i: nat, p: FrameId, b: GlobalAddress)
    requires SplitReady(s, st, f, g, i, b) && FullInner(s, f) && p < |s.frames| && !InTree(s, p)
    ensures Swizzled(SplitInnerUnder(s, f, g, p, b))
  {
    var s' := SplitInnerUnder(s, f, g, p, b);
    SplitInnerUnderIsCut(s, f, g, p, b);
    SplitInnerUnderParent(s, st, f, g, i, p, b);
    forall h: FrameId | InTree(s', h) ensures FrameSound(s', h) {
      if h == f {
        LeftHalfSlots(s, s', f, p, b);
      } else if h == p {
        RightHalfSlots(s, s', f, p, b);
      } else {
        assert Bystander(s, s', f, p, h);
        BystanderParent(s, s', f, p, b, h);
        if h != g { BystanderSlots(s, s', f, p, b, h); }
      }
    }
  }

  lemma SplitInnerTopSwizzling(s: State, f: FrameId, p: FrameId, b: GlobalAddress)
    requires Swizzled(s) && FullInner(s, f) && p < |s.frames| && !InTree(s, p) && s.frames[f].parent == SuperRoot
    ensures Swizzled(SplitInnerTop(s, f, p, b))
  {
    var s' := SplitInnerTop(s, f, p, b);
    SplitInnerTopIsCut(s, f, p, b);
    forall h: FrameId | InTree(s', h) ensures FrameSound(s', h) {
      if h == f {
        LeftHalfSlots(s, s', f, p, b);
      } else if h == p {
        RightHalfSlots(s, s', f, p, b);
      } else {
        assert Bystander(s, s', f, p, h);
        BystanderSlots(s, s', f, p, b, h);
        BystanderParent(s, s', f, p, b, h);
      }
    }
  }

  /** Adopting children and moving slots does not change where any slot leads. */
  lemma CutSays(s: State, s': State, f: FrameId, p: FrameId, b: GlobalAddress, h: FrameId, n': Node<GlobalAddress>)
    requires Swizzled(s) && InnerCut(s, s', f, p, b) && InTree(s, h) && Says(s, s.frames[h].node, n')
    ensures Says(s', s.frames[h].node, n')
  {
    forall x: FrameId | x < |s.frames| && InTree(s, x) ensures s'.frames[x].remote == s.frames[x].remote {
      assert x != f ==> Bystander(s, s', f, p, x);
    }
    assert FrameSound(s, h);
    KeepSays(s, s', h, n');
  }

  lemma InnerCutPlaces(s: State, s': State, st: Store, f: FrameId, p: FrameId, b: GlobalAddress)
    requires Inv(s, st, {p}) && InnerCut(s, s', f, p, b) && b !in st
    requires s'.pages == s.pages[b := p] && s'.cool == s.cool && s'.free == s.free && s'.head == s.head
             && s'.dynamic == s.dynamic
    requires forall x: FrameId | x < |s.frames| && x != f && x != p && s.frames[f].parent != InPool(x) ::
             s'.frames[x].dirty == s.frames[x].dirty
    ensures Accounted(s', {}) && Mapped(s', {})
  {
    var page := Sibling(s.frames[f], b, s.frames[f].parent, HOT);
    forall x: FrameId | InTree(s, x) ensures s.frames[x].remote != b {
      assert Mirrors(s, st, x);
    }
    AdmitKeepsPlaces(s, st, p, page);
    var s1 := Admit(s, p, page);
    forall x | 0 <= x < |s.frames|
      ensures s'.frames[x].pos == s1.frames[x].pos && s'.frames[x].remote == s1.frames[x].remote
    {
      assert x != f && x != p ==> Bystander(s, s', f, p, x);
    }
    assert FrameSound(s, f);
    SamePlaces(s1, s', {});
  }

  /** The order in which the code does it: cut, admit the sibling, re-parent the moved children. */
  lemma SplitInnerTopIs(s: State, f: FrameId, p: FrameId, b: GlobalAddress)
    requires Swizzled(s) && FullInner(s, f) && p < |s.frames| && !InTree(s, p)
    ensures var cut := s.(frames := s.frames[f := Cut(s.frames[f])]);
            var s1 := Admit(cut, p, Sibling(s.frames[f], b, s.frames[f].parent, HOT));
            s1.(frames := Adopt(s1.frames, Split(s.frames[f].node).right.children, p)) == SplitInnerTop(s, f, p, b)
    ensures forall sl | sl in Split(s.frames[f].node).right.children && sl.Tagged? :: sl.frame < |s.frames|
  {
    var n, cs := s.frames[f].node, Split(s.frames[f].node).right.children;
    forall sl | sl in cs && sl.Tagged? ensures sl.frame < |s.frames| && sl.frame != f && sl.frame != p {
      var o :| 0 <= o < |cs| && cs[o] == sl;
      assert n.children[|Split(n).left.children| + o] == sl;
      ChildOf(s, f, |Split(n).left.children| + o);
    }
  }

  /** A backend page that was allocated but not yet written. */
  ghost predicate Reserved(s: State, b: GlobalAddress) {
    b in s.disk && s.disk[b].bitmap == {} && Plain(s.disk[b].node)
  }

  lemma SplitInnerUnderMirrors(s: State, st: Store, f: FrameId, g: FrameId, i: nat, p: FrameId, b: GlobalAddress)
    requires SplitReady(s, st, f, g, i, b) && FullInner(s, f) && p < |s.frames| && !InTree(s, p)
    ensures var s', st' := SplitInnerUnder(s, f, g, p, b), SplitUnder(st, s.frames[g].remote, i, b);
            forall h: FrameId | InTree(s', h) :: Mirrors(s', st', h)
  {
    var s', sep := SplitInnerUnder(s, f, g, p, b), Split(s.frames[f].node).sep;
    var a, ga := s.frames[f].remote, s.frames[g].remote;
    SplitInnerUnderIsCut(s, f, g, p, b);
    assert Mirrors(s, st, f) && Mirrors(s, st, g);
    CutSays(s, s', f, p, b, f, st[a]);
    SplitSays(s', s.frames[f].node, st[a]);
    forall h: FrameId | InTree(s', h) ensures Mirrors(s', SplitUnder(st, ga, i, b), h) {
      if h == g {
        CutSays(s, s', f, p, b, g, st[ga]);
        InsertSays(s', s.frames[g].node, st[ga], sep, Tagged(p), b);
      } else if h != f && h != p {
        assert Bystander(s, s', f, p, h) && Mirrors(s, st, h);
        CutSays(s, s', f, p, b, h, st[s.frames[h].remote]);
      }
    }
  }

  /** A frame ahead of the backend stays ahead through an inner split. */
  lemma CutStaysAhead(s: State, s': State, st: Store, f: FrameId, p: FrameId, b: GlobalAddress, x: GlobalAddress)
    requires Inv(s, st, {p}) && InnerCut(s, s', f, p, b) && s'.pages == s.pages[b := p] && x != b && Ahead(s, x)
    requires s'.frames[f].dirty
    requires forall h: FrameId | h < |s.frames| && h != f && h != p :: s.frames[h].dirty ==> s'.frames[h].dirty
    ensures Ahead(s', x)
  {
    assert EntrySound(s, {p}, x);
    assert s.pages[x] != f ==> Bystander(s, s', f, p, s.pages[x]);
  }

  lemma SplitInnerUnderDisk(s: State, st: Store, f: FrameId, g: FrameId, i: nat, p: FrameId, b: GlobalAddress,
                            x: GlobalAddress)
    requires Inv(s, st, {p}) && SplitReady(s, st, f, g, i, b) && FullInner(s, f) && p < |s.frames| && Reserved(s, b)
    requires !InTree(s, p) && x in SplitUnder(st, s.frames[g].remote, i, b)
    requires InnerCut(s, SplitInnerUnder(s, f, g, p, b), f, p, b)
    ensures DiskSound(SplitInnerUnder(s, f, g, p, b), SplitUnder(st, s.frames[g].remote, i, b), x)
  {
    hide Inv;
    assert Mirrors(s, st, f) && Mirrors(s, st, g);
    if x != b {
      assert DiskSound(s, st, x);
      if Ahead(s, x) { CutStaysAhead(s, SplitInnerUnder(s, f, g, p, b), st, f, p, b, x); }
    }
  }

  /** Splitting a full inner page under its parent splits it in the logical store. */
  lemma SplitInnerUnderKeeps(s: State, st: Store, f: FrameId, g: FrameId, i: nat, p: FrameId, b: GlobalAddress)
    requires Inv(s, st, {p}) && SplitReady(s, st, f, g, i, b) && FullInner(s, f) && p < |s.frames| && Reserved(s, b)
    ensures Inv(SplitInnerUnder(s, f, g, p, b), SplitUnder(st, s.frames[g].remote, i, b), {})
  {
    var s', st' := SplitInnerUnder(s, f, g, p, b), SplitUnder(st, s.frames[g].remote, i, b);
    assert p in {p};
    SplitInnerUnderIsCut(s, f, g, p, b);
    SplitInnerUnderSwizzling(s, st, f, g, i, p, b);
    SplitInnerUnderMirrors(s, st, f, g, i, p, b);
    InnerCutPlaces(s, s', st, f, p, b);
    forall x | x in st' ensures DiskSound(s', st', x) {
      SplitInnerUnderDisk(s, st, f, g, i, p, b, x);
    }
  }

  lemma SplitInnerTopMirrors(s: State, st: Store, f: FrameId, p: FrameId, b: GlobalAddress)
    requires Swizzled(s) && Stored(s, st) && FullInner(s, f) && p < |s.frames| && !InTree(s, p) && b !in st
    requires s.frames[f].parent == SuperRoot
    ensures var a := s.frames[f].remote; a in st && NodeOk(st[a]) && st[a].Full()
    ensures var s', st' := SplitInnerTop(s, f, p, b), HalvedAt(st, s.frames[f].remote, b);
            forall h: FrameId | InTree(s', h) :: Mirrors(s', st', h)
  {
    var s', a := SplitInnerTop(s, f, p, b), s.frames[f].remote;
    SplitInnerTopIsCut(s, f, p, b);
    assert Mirrors(s, st, f);
    CutSays(s, s', f, p, b, f, st[a]);
    SplitSays(s', s.frames[f].node, st[a]);
    forall h: FrameId | InTree(s', h) ensures Mirrors(s', HalvedAt(st, a, b), h) {
      if h != f && h != p {
        assert Bystander(s, s', f, p, h) && Mirrors(s, st, h);
        CutSays(s, s', f, p, b, h, st[s.frames[h].remote]);
      }
    }
  }

  /** Splitting an inner root splits it in the logical store; both halves hang from super_root_. */
  lemma SplitInnerTopKeeps(s: State, st: Store, f: FrameId, p: FrameId, b: GlobalAddress)
    requires Inv(s, st, {p}) && FullInner(s, f) && p < |s.frames| && b !in st && Reserved(s, b)
    requires s.frames[f].parent == SuperRoot
    ensures var a := s.frames[f].remote; a in st && NodeOk(st[a]) && st[a].Full()
    ensures Inv(SplitInnerTop(s, f, p, b), HalvedAt(st, s.frames[f].remote, b), {})
  {
    var s', a := SplitInnerTop(s, f, p, b), s.frames[f].remote;
    assert p in {p};
    SplitInnerTopIsCut(s, f, p, b);
    SplitInnerTopSwizzling(s, f, p, b);
    SplitInnerTopMirrors(s, st, f, p, b);
    InnerCutPlaces(s, s', st, f, p, b);
    HalvedNodesOk(st, a, b);
    assert Mirrors(s, st, f);
    var st' := HalvedAt(st, a, b);
    forall x | x in st' ensures DiskSound(s', st', x) {
      if x != b {
        assert DiskSound(s, st, x);
        if Ahead(s, x) { CutStaysAhead(s, s', st, f, p, b, x); }
      }
    }
  }

  // --- A new root (make_new_root) ---

  function RootPage(r: GlobalAddress, level: nat, sep: Key, f: FrameId, right: Slot): Page {
    Page(r, if right.Tagged? then {0, 1} else {0}, SuperRoot, HOT, true,
         Inner(level, 0, KEY_MAX, [sep], [Tagged(f), right]))
  }

  /** Frame p becomes the root above frame f and the page in slot right. */
  function NewRoot(s: State, p: FrameId, r: GlobalAddress, level: nat, sep: Key, f: FrameId, right: Slot): State
    requires p < |s.frames|
  {
    var page := RootPage(r, level, sep, f, right);
    s.(frames := Adopt(s.frames, [Tagged(f), right], p)[p := page], pages := s.pages[r := p])
  }

  /** A resident frame under super_root_ with the given interval, one level below the new root. */
  ghost predicate TopHalf(s: State, f: FrameId, level: nat, lo: Key, hi: Key) {
    && InTree(s, f) && s.frames[f].parent == SuperRoot
    && s.frames[f].node.Level() + 1 == level && s.frames[f].node.lo == lo && s.frames[f].node.hi == hi
  }

  ghost predicate RootReady(s: State, p: FrameId, level: nat, sep: Key, f: FrameId, right: Slot) {
    && p < |s.frames| && !InTree(s, p) && 0 < sep < KEY_MAX
    && TopHalf(s, f, level, 0, sep)
    && (right.Tagged? ==> TopHalf(s, right.frame, level, sep, KEY_MAX) && right.frame != f)
  }

  lemma NewRootSwizzling(s: State, p: FrameId, r: GlobalAddress, level: nat, sep: Key, f: FrameId, right: Slot)
    requires Swizzled(s) && RootReady(s, p, level, sep, f, right)
    ensures Swizzled(NewRoot(s, p, r, level, sep, f, right))
  {
    var s' := NewRoot(s, p, r, level, sep, f, right);
    var cs := [Tagged(f), right];
    assert cs[0] == Tagged(f) && cs[1] == right;
    forall h: FrameId | InTree(s', h) ensures FrameSound(s', h) {
      if h == p {
        assert s'.frames[p].node.children[0] == Tagged(f) && s'.frames[p].node.children[1] == right;
        forall j | 0 <= j < 2 ensures SlotSound(s', p, j) {
        }
      } else {
        assert FrameSound(s, h);
        assert Tagged(h) in cs ==> h == f || right == Tagged(h);
        KeepFrame(s, s', h);
        assert ParentSound(s', h);
      }
    }
  }

  lemma NewRootPlaces(s: State, st: Store, p: FrameId, r: GlobalAddress, level: nat, sep: Key, f: FrameId, right: Slot)
    requires Inv(s, st, {p}) && RootReady(s, p, level, sep, f, right) && r !in st
    ensures var s' := NewRoot(s, p, r, level, sep, f, right); Accounted(s', {}) && Mapped(s', {})
  {
    forall x: FrameId | InTree(s, x) ensures s.frames[x].remote != r {
      assert Mirrors(s, st, x);
    }
    AdmitKeepsPlaces(s, st, p, RootPage(r, level, sep, f, right));
    SamePlaces(Admit(s, p, RootPage(r, level, sep, f, right)), NewRoot(s, p, r, level, sep, f, right), {});
  }

  /** Growing a root adds one page to the logical store and changes no other. */
  lemma NewRootKeeps(s: State, st: Store, p: FrameId, r: GlobalAddress, level: nat, sep: Key, f: FrameId,
                     right: Slot, b: GlobalAddress)
    requires Inv(s, st, {p}) && RootReady(s, p, level, sep, f, right) && r !in st && Reserved(s, r)
    requires LeadsTo(s, right, b)
    ensures Inv(NewRoot(s, p, r, level, sep, f, right),
                st[r := Inner(level, 0, KEY_MAX, [sep], [s.frames[f].remote, b])], {})
  {
    hide SameAddresses;
    var s' := NewRoot(s, p, r, level, sep, f, right);
    var st' := st[r := Inner(level, 0, KEY_MAX, [sep], [s.frames[f].remote, b])];
    NewRootSwizzling(s, p, r, level, sep, f, right);
    NewRootPlaces(s, st, p, r, level, sep, f, right);
    forall x | x in st' ensures NodeOk(st'[x]) {
      assert x != r ==> NodeOk(st[x]);
    }
    forall h: FrameId | InTree(s', h) ensures Mirrors(s', st', h) {
      if h != p {
        assert FrameSound(s, h) && Mirrors(s, st, h);
        KeepSays(s, s', h, st[s.frames[h].remote]);
      }
    }
    forall x | x in st' ensures DiskSound(s', st', x) {
      if x != r {
        assert DiskSound(s, st, x);
        assert x in s.pages ==> EntrySound(s, {p}, x);
      }
    }
  }
}
