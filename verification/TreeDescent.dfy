/** One step down the tree, as seen by the pages and by the frames. */
module TreeDescent {
  import opened Types
  import opened Node
  import opened BPlusTree
  import opened CacheState
  import opened CacheSteps
  import opened LoadSteps
  import opened TreeFacts

  /** The cache is sound, its pages form a tree that stores m, and super_root_ points at the root. */
  ghost predicate TreeInv(s: State, st: Store, slot: Slot, root: GlobalAddress, height: nat, m: map<Key, Value>) {
    Inv(s, st, {}) && TreeOk(st, root, height) && Holds(st, m) && RootIs(s, slot, root)
  }

  /** The slot lowerBound picks leads to the child responsible for k, one level down. */
  lemma DescendStep(st: Store, root: GlobalAddress, height: nat, a: GlobalAddress, k: Key)
    requires TreeOk(st, root, height) && a in st && st[a].Inner? && st[a].Covers(k)
    ensures var i := LowerBound(st[a].keys, k);
            && i < |st[a].children| && st[a].children[i] in st
            && st[st[a].children[i]].Covers(k) && st[st[a].children[i]].Level() + 1 == st[a].Level()
  {
    var i := LowerBound(st[a].keys, k);
    assert NodeOk(st[a]) && LinkOk(st, st[a]);
    assert SlotOk(st, st[a], i);
    SearchFindsSlot(st[a], k, i);
  }

  /** After a split the second search finds a half that covers k and has room. */
  lemma SplitThenDescend(st: Store, root: GlobalAddress, height: nat, p: GlobalAddress, i: nat, b: GlobalAddress,
                         k: Key)
    requires CanSplit(st, root, height, p, i, b) && st[p].Covers(k) && i == LowerBound(st[p].keys, k)
    ensures TreeOk(SplitUnder(st, p, i, b), root, height)
    ensures var st' := SplitUnder(st, p, i, b);
            var j := LowerBound(st'[p].keys, k);
            && st'[p].Inner? && st'[p].Covers(k) && (j == i || j == i + 1)
            && j < |st'[p].children| && st'[p].children[j] in st' && !st'[st'[p].children[j]].Full()
  {
    var a, st' := st[p].children[i], SplitUnder(st, p, i, b);
    var sep := Split(st[a]).sep;
    SplitUnderShape(st, root, height, p, i, b);
    SplitUnderPages(st, root, height, p, i, b);
    SplitOk(st[a]);
    InnerInsertOk(st[p], i, sep, b);
    SearchFindsSlot(st[p], k, i);
    SearchFindsSlot(st'[p], k, i);
    SearchFindsSlot(st'[p], k, i + 1);
  }

  // --- A hit: the slot is swizzled ---

  lemma HitFound(s: State, st: Store, slot: Slot, root: GlobalAddress, height: nat, m: map<Key, Value>, g: FrameId,
                 i: nat)
    requires TreeInv(s, st, slot, root, height, m) && InTree(s, g) && s.frames[g].node.Inner?
    requires i < |s.frames[g].node.children| && s.frames[g].node.children[i].Tagged?
    ensures var c, ga := s.frames[g].node.children[i].frame, s.frames[g].remote;
            && InTree(s, c) && ga in st && st[ga].Inner? && i < |st[ga].children|
               && s.frames[c].remote == st[ga].children[i]
  {
    SlotOfFrame(s, st, root, height, {}, g, i);
    assert FrameSound(s, g) && SlotSound(s, g, i);
  }

  // --- A miss: the child is loaded ---

  /** While the parent is pinned and the child not resident, acquiring a frame leaves the slot alone. */
  lemma MissReady(s: State, s1: State, st: Store, slot: Slot, root: GlobalAddress, height: nat, m: map<Key, Value>,
                  g: FrameId, i: nat, p: FrameId, buf: Page)
    requires TreeInv(s, st, slot, root, height, m) && InTree(s, g) && s.frames[g].node.Inner?
    requires i < |s.frames[g].node.children| && s.frames[g].node.children[i] == Untagged(buf.remote)
    requires Fetched(st, buf, buf.remote)
    requires Calmer(Repin(s, g, PINNED), s1) && Inv(s1, st, {p}) && p < |s1.frames|
    ensures CanLoad(s1, st, g, i, p, buf) && g != p
    ensures s1.frames[g].remote == s.frames[g].remote && s1.frames[g].parent == s.frames[g].parent
  {
    var sp, a, ga := Repin(s, g, PINNED), buf.remote, s.frames[g].remote;
    UnswizzledIsNotResident(s, st, root, height, g, i);
    forall f: FrameId | InTree(sp, f) ensures sp.frames[f].remote != a {
      assert InTree(s, f);
    }
    CalmerNotResident(sp, s1, a);
    SlotOfFrame(s, st, root, height, {}, g, i);
    assert InTree(sp, g);
    assert InTree(s1, g) && Stays(sp, s1, g);
    assert p in {p};
    assert Mirrors(s1, st, g);
    SlotOfFrame(s1, st, root, height, {p}, g, i);
    assert FrameSound(s1, g) && SlotSound(s1, g, i);
  }

  /** The state after a miss. */
  function Loaded(s1: State, g: FrameId, i: nat, p: FrameId, buf: Page): State
    requires g < |s1.frames| && p < |s1.frames| && s1.frames[g].node.Inner? && i < |s1.frames[g].node.children|
  {
    Repin(LoadAt(s1, g, i, p, buf), g, HOT)
  }

  /** Slot i of frame g gets frame p, which becomes HOT, and g its old position. */
  function SwizzledIn(s: State, g: FrameId, i: nat, p: FrameId, pos: PosState): State
    requires g < |s.frames| && p < |s.frames| && s.frames[g].node.Inner? && i < |s.frames[g].node.children|
  {
    var n := s.frames[g].node;
    s.(frames := s.frames[p := s.frames[p].(pos := HOT)]
                         [g := s.frames[g].(node := n.(children := n.children[i := Tagged(p)]),
                                            bitmap := s.frames[g].bitmap + {i}, pos := pos)])
  }

  lemma SwizzledInIs(s1: State, g: FrameId, i: nat, p: FrameId, buf: Page)
    requires g < |s1.frames| && p < |s1.frames| && g != p && s1.frames[g].node.Inner?
             && i < |s1.frames[g].node.children|
    ensures var s2 := Admit(s1, p, buf.(pos := PINNED, parent := InPool(g)));
            s2.frames[g] == s1.frames[g] && SwizzledIn(s2, g, i, p, HOT) == Loaded(s1, g, i, p, buf)
  {
  }

  lemma MissTop(s: State, s1: State, st: Store, g: FrameId, i: nat, p: FrameId, buf: Page)
    requires InTree(s, g) && Settled(s) && Calmer(Repin(s, g, PINNED), s1) && CanLoad(s1, st, g, i, p, buf) && g != p
             && !InTree(s1, p)
    ensures TopKept(s, Loaded(s1, g, i, p, buf)) && Settled(Loaded(s1, g, i, p, buf))
  {
    var sp, s2 := Repin(s, g, PINNED), Loaded(s1, g, i, p, buf);
    CalmerKeepsTop(sp, s1);
    forall f: FrameId | InTree(s2, f) ensures s2.frames[f].pos == HOT {
      if f != p && f != g {
        assert InTree(s1, f);
        assert Stays(sp, s1, f);
        assert InTree(s, f);
      }
    }
    forall f: FrameId | InTree(s2, f) && s2.frames[f].parent == SuperRoot
      ensures InTree(s, f) && s.frames[f].parent == SuperRoot && s.frames[f].remote == s2.frames[f].remote
    {
      assert InTree(s1, f) && InTree(sp, f);
    }
    forall f: FrameId | InTree(s, f) && s.frames[f].parent == SuperRoot
      ensures InTree(s2, f) && s2.frames[f].parent == SuperRoot && s.frames[f].remote == s2.frames[f].remote
    {
      assert InTree(sp, f);
      assert InTree(s1, f);
    }
  }

  /** A miss leaves the tree and its contents as they were, with the child now swizzled. */
  lemma MissDone(s: State, s1: State, st: Store, slot: Slot, root: GlobalAddress, height: nat, m: map<Key, Value>,
                 g: FrameId, i: nat, p: FrameId, buf: Page)
    requires TreeInv(s, st, slot, root, height, m) && InTree(s, g)
    requires Calmer(Repin(s, g, PINNED), s1) && CanLoad(s1, st, g, i, p, buf) && g != p
    requires s1.frames[g].remote == s.frames[g].remote
    ensures TreeInv(Loaded(s1, g, i, p, buf), st, slot, root, height, m)
    ensures var s2, ga := Loaded(s1, g, i, p, buf), s.frames[g].remote;
            && InTree(s2, g) && s2.frames[g].remote == ga && s2.frames[g].node.Inner?
            && s2.frames[g].node.children[i] == Tagged(p) && InTree(s2, p)
            && ga in st && st[ga].Inner? && i < |st[ga].children| && s2.frames[p].remote == st[ga].children[i]
  {
    LoadKeepsPlaces(s1, st, g, i, p, buf);
    LoadKeeps(s1, st, g, i, p, buf);
    RepinKeeps(LoadAt(s1, g, i, p, buf), st, g, HOT, {});
    MissTop(s, s1, st, g, i, p, buf);
    RootKept(s, Loaded(s1, g, i, p, buf), slot, root);
    SlotOfFrame(s1, st, root, height, {p}, g, i);
  }

  /** A miss: the sampler may have worked while g was pinned, then the page went into frame p. */
  ghost predicate MissTo(s: State, s1: State, s': State, g: FrameId, i: nat, p: FrameId, buf: Page) {
    && g < |s.frames| && Calmer(Repin(s, g, PINNED), s1) && (!NothingAtHand(s) ==> Takes(Repin(s, g, PINNED), s1, p))
    && g < |s1.frames| && p < |s1.frames| && s1.frames[g].node.Inner? && i < |s1.frames[g].node.children|
    && s' == Loaded(s1, g, i, p, buf)
  }

  /** What a miss comes to: with a frame at hand it costs that frame, and one page more is in the pool. */
  lemma MissMade(s: State, s1: State, st: Store, slot: Slot, root: GlobalAddress, height: nat, m: map<Key, Value>,
                 g: FrameId, i: nat, p: FrameId, buf: Page)
    requires TreeInv(s, st, slot, root, height, m) && InTree(s, g)
    requires Calmer(Repin(s, g, PINNED), s1) && CanLoad(s1, st, g, i, p, buf) && g != p
    requires !NothingAtHand(s) ==> Takes(Repin(s, g, PINNED), s1, p)
    ensures MissTo(s, s1, Loaded(s1, g, i, p, buf), g, i, p, buf)
    ensures !NothingAtHand(s) ==> OneMiss(s, Loaded(s1, g, i, p, buf), buf.remote)
    ensures OnlyCame(s, Loaded(s1, g, i, p, buf), buf.remote)
  {
    hide OneMiss, Loaded, Inv, Calmer, OnlyCame;
    MissBringsOne(s, s1, st, g, i, p, buf);
    if !NothingAtHand(s) {
      TakesUnused(s, s1, st, g, i, p, buf);
      MissIsOne(s, s1, st, g, i, p, buf);
    }
  }

  /** A miss brings its page into the pool and no other. */
  lemma MissBringsOne(s: State, s1: State, st: Store, g: FrameId, i: nat, p: FrameId, buf: Page)
    requires InTree(s, g) && Calmer(Repin(s, g, PINNED), s1) && CanLoad(s1, st, g, i, p, buf) && g != p
    ensures OnlyCame(s, Loaded(s1, g, i, p, buf), buf.remote)
  {
    var sp, s2 := Repin(s, g, PINNED), Loaded(s1, g, i, p, buf);
    forall x, f: FrameId | NotResident(s, x) && x != buf.remote && InTree(s2, f) ensures s2.frames[f].remote != x {
      if f != p {
        assert InTree(s1, f) && s1.frames[f].remote == s2.frames[f].remote;
        assert InTree(sp, f) && Stays(sp, s1, f);
        assert InTree(s, f);
      }
    }
  }

  /** The frame taken is not resident. */
  lemma TakesUnused(s: State, s1: State, st: Store, g: FrameId, i: nat, p: FrameId, buf: Page)
    requires InTree(s, g) && Takes(Repin(s, g, PINNED), s1, p) && CanLoad(s1, st, g, i, p, buf) && g != p
    ensures !InTree(s, p)
  {
    assert p in {p};
    assert s1.frames == Repin(s, g, PINNED).frames;
    assert InTree(s1, p) <==> InTree(s, p);
  }

  lemma MissIsOne(s: State, s1: State, st: Store, g: FrameId, i: nat, p: FrameId, buf: Page)
    requires InTree(s, g) && Settled(s) && Takes(Repin(s, g, PINNED), s1, p) && CanLoad(s1, st, g, i, p, buf) && g != p
    requires !InTree(s, p)
    ensures OneMiss(s, Loaded(s1, g, i, p, buf), buf.remote)
  {
    var sp, s2 := Repin(s, g, PINNED), Loaded(s1, g, i, p, buf);
    forall n: nat | Serves(s, n + 1) ensures Serves(s2, n) {
      ServesAlike(s, sp, n + 1);
      ServesAlike(s1, s2, n);
    }
    forall x ensures NotResident(s2, x) <==> NotResident(s, x) && x != buf.remote {
      HomesAfterMiss(s, s1, g, i, p, buf, x);
    }
  }

  lemma HomesAfterMiss(s: State, s1: State, g: FrameId, i: nat, p: FrameId, buf: Page, x: GlobalAddress)
    requires InTree(s, g) && s.frames[g].pos == HOT && Takes(Repin(s, g, PINNED), s1, p) && p < |s1.frames| && g != p
    requires !InTree(s, p) && s1.frames[g].node.Inner? && i < |s1.frames[g].node.children|
    ensures NotResident(Loaded(s1, g, i, p, buf), x) <==> NotResident(s, x) && x != buf.remote
  {
    var s2 := Loaded(s1, g, i, p, buf);
    assert s1.frames == Repin(s, g, PINNED).frames;
    assert InTree(s2, p) && s2.frames[p].remote == buf.remote;
    forall f: FrameId | f != p
      ensures InTree(s2, f) <==> InTree(s, f)
      ensures InTree(s, f) ==> s2.frames[f].remote == s.frames[f].remote
    {
    }
  }
}
