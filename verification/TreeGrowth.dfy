/** What a whole split does to a sound tree in a sound cache. */
module TreeGrowth {
  import opened Types
  import opened Node
  import opened BPlusTree
  import opened CacheState
  import opened CacheSteps
  import opened LoadSteps
  import opened SplitSteps
  import opened TreeFacts
  import opened TreeDescent
  import opened SplitWindow

  /** Slot i of resident frame g, which has room, holds resident frame f, which is full. */
  ghost predicate FullChild(s: State, f: FrameId, g: FrameId, i: nat) {
    && InTree(s, g) && s.frames[g].node.Inner? && !s.frames[g].node.Full()
    && i < |s.frames[g].node.children| && s.frames[g].node.children[i] == Tagged(f)
    && InTree(s, f) && s.frames[f].node.Full()
  }

  lemma FullChildFacts(s: State, st: Store, slot: Slot, root: GlobalAddress, height: nat, m: map<Key, Value>,
                       f: FrameId, g: FrameId, i: nat, b: GlobalAddress)
    requires TreeInv(s, st, slot, root, height, m) && FullChild(s, f, g, i) && b !in st
    ensures NodeOk(s.frames[f].node) && NodeOk(s.frames[g].node) && f != g
    ensures SplitReady(s, st, f, g, i, b) && CanSplit(st, root, height, s.frames[g].remote, i, b)
    ensures FrameSound(s, f)
  {
    FullChildReady(s, st, root, height, f, g, i, b);
    assert FrameSound(s, f) && FrameSound(s, g);
  }

  /** The shape a full child and its parent have. */
  lemma FullChildShape(s: State, st: Store, slot: Slot, root: GlobalAddress, height: nat, m: map<Key, Value>,
                       f: FrameId, g: FrameId, i: nat, b: GlobalAddress)
    requires TreeInv(s, st, slot, root, height, m) && FullChild(s, f, g, i) && b !in st
    ensures NodeOk(s.frames[f].node) && NodeOk(s.frames[g].node) && f != g
    ensures CanSplit(st, root, height, s.frames[g].remote, i, b)
  {
    FullChildFacts(s, st, slot, root, height, m, f, g, i, b);
  }

  lemma RootIsStill(s: State, s': State, slot: Slot, root: GlobalAddress)
    requires RootIs(s, slot, root) && |s'.frames| == |s.frames|
    requires forall x | 0 <= x < |s.frames| :: s'.frames[x].pos == s.frames[x].pos
               && s'.frames[x].remote == s.frames[x].remote && s'.frames[x].parent == s.frames[x].parent
    ensures RootIs(s', slot, root)
  {
    assert forall x: FrameId :: InTree(s', x) <==> InTree(s, x);
  }

  /** A leaf split under its parent, from reserved page to divided slot. */
  lemma LeafSplitDone(s: State, st: Store, slot: Slot, root: GlobalAddress, height: nat, m: map<Key, Value>,
                      f: FrameId, g: FrameId, i: nat, b: GlobalAddress)
    requires TreeInv(s, st, slot, root, height, m) && FullChild(s, f, g, i) && s.frames[f].node.Leaf? && b !in st
    requires NodeOk(s.frames[f].node) && NodeOk(s.frames[g].node)
             && CanSplit(st, root, height, s.frames[g].remote, i, b)
    ensures TreeInv(SplitLeafUnder(s, f, g, b), SplitUnder(st, s.frames[g].remote, i, b), slot, root, height, m)
    ensures var n := SplitLeafUnder(s, f, g, b).frames[g].node;
            n.Inner? && i + 1 < |n.children| && InTree(SplitLeafUnder(s, f, g, b), g)
  {
    FullChildFacts(s, st, slot, root, height, m, f, g, i, b);
    SplitLeafUnderKeeps(s, st, f, g, i, b);
    SplitUnderKeepsTree(st, root, height, m, s.frames[g].remote, i, b);
    RootIsStill(s, SplitLeafUnder(s, f, g, b), slot, root);
  }

  /** An inner split under its parent, once a frame p is taken. */
  lemma InnerSplitQuiet(s: State, s1: State, st: Store, slot: Slot, root: GlobalAddress, height: nat,
                        m: map<Key, Value>, f: FrameId, g: FrameId, i: nat, p: FrameId, b: GlobalAddress)
    requires TreeInv(s, st, slot, root, height, m) && FullChild(s, f, g, i) && s.frames[f].node.Inner? && b !in st
    requires Takes(s, s1, p) && Reserved(s, b)
    requires NodeOk(s.frames[f].node) && NodeOk(s.frames[g].node)
             && CanSplit(st, root, height, s.frames[g].remote, i, b)
    ensures p < |s1.frames| && s1.frames == s.frames
    ensures TreeInv(SplitInnerUnder(s1, f, g, p, b), SplitUnder(st, s.frames[g].remote, i, b), slot, root, height, m)
    ensures InTree(SplitInnerUnder(s1, f, g, p, b), g)
  {
    FullChildFacts(s, st, slot, root, height, m, f, g, i, b);
    TakesKeeps(s, s1, st, p);
    assert p in {p};
    QuietReady(s, s1, st, f, g, i, b, p);
    QuietTop(s, s1, slot, root);
    SplitInnerUnderKeeps(s1, st, f, g, i, p, b);
    SplitUnderKeepsTree(st, root, height, m, s.frames[g].remote, i, b);
    InnerSplitTop(s1, f, g, p, b, slot, root);
  }

  // --- Sampling between the cut of an inner page and its sibling's frame ---

  /** Sampling in the window leaves the tree as it was. */
  lemma WindowKeepsTree(s: State, s0: State, st: Store, slot: Slot, root: GlobalAddress, height: nat,
                        m: map<Key, Value>, cut: Option<Cutting>)
    requires TreeInv(s, st, slot, root, height, m) && cut.Some? && Kept(s, s0, st, cut)
    ensures TreeInv(s0, st, slot, root, height, m)
  {
    CalmerKeepsTop(s, s0);
    RootKept(s, s0, slot, root);
  }

  /** ... and the full child in its slot. */
  lemma WindowKeepsChild(s: State, s0: State, st: Store, slot: Slot, root: GlobalAddress, height: nat,
                         m: map<Key, Value>, f: FrameId, g: FrameId, i: nat, cut: Option<Cutting>)
    requires TreeInv(s, st, slot, root, height, m) && FullChild(s, f, g, i)
    requires cut.Some? && cut.value.frame == f && Kept(s, s0, st, cut)
    ensures TreeInv(s0, st, slot, root, height, m) && FullChild(s0, f, g, i)
    ensures s0.frames[f].node.Leaf? == s.frames[f].node.Leaf?
    ensures s0.frames[g].remote == s.frames[g].remote
  {
    WindowKeepsTree(s, s0, st, slot, root, height, m, cut);
    assert FrameSound(s, g) && SlotSound(s, g, i);
    assert InTree(s0, f) && FrameSound(s0, f);
    assert InTree(s0, g) && Stays(s, s0, g);
    var j :| 0 <= j < |s0.frames[g].node.children| && s0.frames[g].node.children[j] == Tagged(f);
    SlotOfFrame(s, st, root, height, {}, g, i);
    SlotOfFrame(s0, st, root, height, {}, g, j);
    OnlyParent(st, root, height, s.frames[g].remote, i, s.frames[g].remote, j);
  }

  /** A full inner child is ready to be cut. */
  lemma InnerChildAtWindow(s: State, st: Store, slot: Slot, root: GlobalAddress, height: nat, m: map<Key, Value>,
                           f: FrameId, g: FrameId, i: nat)
    requires TreeInv(s, st, slot, root, height, m) && FullChild(s, f, g, i) && s.frames[f].node.Inner?
    ensures AtWindow(s, st, f) && f < |s.frames| && NodeOk(s.frames[f].node) && Inv(s, st, {})
  {
    assert FrameSound(s, f);
  }

  lemma RootAtWindow(s: State, st: Store, slot: Slot, root: GlobalAddress, height: nat, m: map<Key, Value>)
    requires TreeInv(s, st, slot, root, height, m)
    requires slot.frame < |s.frames| && s.frames[slot.frame].node.Inner? && s.frames[slot.frame].node.Full()
    ensures AtWindow(s, st, slot.frame) && Inv(s, st, {})
  {
    assert FrameSound(s, slot.frame);
  }

  /** What the code has read of a page before the cut is what the page f, still whole, splits off. */
  ghost predicate SplitsAlike(page: Page, s: State, f: FrameId, b: GlobalAddress) {
    && f < |s.frames| && NodeOk(s.frames[f].node) && s.frames[f].node.Full() && NodeOk(page.node) && page.node.Full()
    && page.parent == s.frames[f].parent && Split(page.node).sep == Split(s.frames[f].node).sep
    && Sibling(page, b, NoParent, REMOTE) == Sibling(s.frames[f], b, NoParent, REMOTE)
  }

  /** Frame p is in hand for the sibling of the full inner frame f, which hangs from frame g. */
  ghost predicate CanHang(s: State, f: FrameId, g: FrameId, p: FrameId, b: GlobalAddress) {
    && Swizzled(s) && FullInner(s, f) && p < |s.frames| && !InTree(s, p) && NodeOk(s.frames[f].node)
    && f != g && g != p && g < |s.frames| && NodeOk(s.frames[g].node) && s.frames[g].node.Inner?
    && SplitInnerTop(s, f, p, b).frames[g] == s.frames[g]
  }

  /** An inner split under its parent, whatever the sampler does between the cut and the moment the
      sibling gets frame p: s is the state before the cut, s0 the one when the sampler is done. */
  lemma InnerSplitDone(s: State, s0: State, s1: State, st: Store, slot: Slot, root: GlobalAddress, height: nat,
                       m: map<Key, Value>, f: FrameId, g: FrameId, i: nat, p: FrameId, b: GlobalAddress,
                       cut: Option<Cutting>)
    requires TreeInv(s, st, slot, root, height, m) && FullChild(s, f, g, i) && s.frames[f].node.Inner?
    requires b !in st && Reserved(s, b)
    requires cut.Some? && cut.value.frame == f && Kept(s, s0, st, cut) && Takes(s0, s1, p)
    ensures CanSplit(st, root, height, s.frames[g].remote, i, b) && SplitsAlike(s.frames[f], s1, f, b)
    ensures CanHang(s1, f, g, p, b)
    ensures var s2, st' := SplitInnerUnder(s1, f, g, p, b), SplitUnder(st, s.frames[g].remote, i, b);
            && TreeInv(s2, st', slot, root, height, m)
            && |Leaves(st')| == |Leaves(st)| && |Inners(st')| == |Inners(st)| + 1
            && InTree(s2, g) && s2.frames[g].remote == s.frames[g].remote && s2.frames[g].node.Inner?
  {
    hide TreeInv;
    hide Kept;
    hide Reserved;
    StillReservedInWindow(s, s0, st, slot, root, height, m, b, cut);
    WindowKeepsChild(s, s0, st, slot, root, height, m, f, g, i, cut);
    FullChildShape(s0, st, slot, root, height, m, f, g, i, b);
    MovedStays(s, s0, s1, st, p, cut);
    InnerSplitReady(s0, s1, st, slot, root, height, m, f, g, i, p, b);
    InnerSplitWhole(s0, s1, st, slot, root, height, m, f, g, i, p, b);
  }

  lemma StillReservedInWindow(s: State, s0: State, st: Store, slot: Slot, root: GlobalAddress, height: nat,
                              m: map<Key, Value>, b: GlobalAddress, cut: Option<Cutting>)
    requires TreeInv(s, st, slot, root, height, m) && Kept(s, s0, st, cut) && Reserved(s, b) && b !in st
    ensures Reserved(s0, b)
  {
    StillReserved(s, s0, st, b, {});
  }

  lemma MovedStays(s: State, s0: State, s1: State, st: Store, p: FrameId, cut: Option<Cutting>)
    requires cut.Some? && Kept(s, s0, st, cut) && Takes(s0, s1, p)
    ensures s1.frames == s0.frames && cut.value.frame < |s.frames|
    ensures forall b :: SplitsAlike(s.frames[cut.value.frame], s1, cut.value.frame, b)
  {
    TakesKeeps(s0, s1, st, p);
  }

  /** The same for an inner root. */
  lemma InnerHalved(s: State, s0: State, s1: State, st: Store, slot: Slot, root: GlobalAddress, height: nat,
                    m: map<Key, Value>, p: FrameId, b: GlobalAddress, cut: Option<Cutting>)
    requires TreeInv(s, st, slot, root, height, m) && s.frames[slot.frame].node.Inner?
             && s.frames[slot.frame].node.Full()
    requires b !in st && Reserved(s, b)
    requires cut.Some? && cut.value.frame == slot.frame && Kept(s, s0, st, cut) && Takes(s0, s1, p)
    ensures SplitsAlike(s.frames[slot.frame], s1, slot.frame, b)
    ensures Swizzled(s1) && FullInner(s1, slot.frame) && p < |s1.frames| && !InTree(s1, p)
    ensures Rootless(SplitInnerTop(s1, slot.frame, p, b), st, root, height, m, slot.frame, b, Tagged(p))
  {
    StillReservedInWindow(s, s0, st, slot, root, height, m, b, cut);
    WindowKeepsTree(s, s0, st, slot, root, height, m, cut);
    MovedStays(s, s0, s1, st, p, cut);
    assert FrameSound(s0, slot.frame);
    InnerHalvedQuiet(s0, s1, st, slot, root, height, m, p, b);
    InnerRootReady(s0, s1, st, slot, root, height, m, p);
  }

  /** With a frame in hand the root is still whole and the frame is no one's. */
  lemma InnerRootReady(s: State, s1: State, st: Store, slot: Slot, root: GlobalAddress, height: nat,
                       m: map<Key, Value>, p: FrameId)
    requires TreeInv(s, st, slot, root, height, m) && Takes(s, s1, p)
    requires slot.frame < |s.frames| && s.frames[slot.frame].node.Inner? && s.frames[slot.frame].node.Full()
    ensures Swizzled(s1) && FullInner(s1, slot.frame) && p < |s1.frames| && !InTree(s1, p)
  {
    TakesKeeps(s, s1, st, p);
    assert p in {p};
    assert FrameSound(s1, slot.frame);
  }

  lemma QuietTop(s: State, s1: State, slot: Slot, root: GlobalAddress)
    requires RootIs(s, slot, root) && QuietTo(s, s1)
    ensures RootIs(s1, slot, root)
  {
    assert forall x: FrameId :: InTree(s1, x) <==> InTree(s, x);
  }

  /** Taking a frame leaves a full child ready. */
  lemma QuietReady(s: State, s1: State, st: Store, f: FrameId, g: FrameId, i: nat, b: GlobalAddress, p: FrameId)
    requires SplitReady(s, st, f, g, i, b) && QuietTo(s, s1) && Inv(s1, st, {p})
    ensures SplitReady(s1, st, f, g, i, b)
    ensures FrameSound(s1, f) && FrameSound(s1, g)
  {
    assert FrameSound(s1, f) && FrameSound(s1, g);
    assert SlotSound(s1, g, i);
  }

  lemma InnerSplitTop(s: State, f: FrameId, g: FrameId, p: FrameId, b: GlobalAddress, slot: Slot, root: GlobalAddress)
    requires RootIs(s, slot, root) && Swizzled(s) && FullInner(s, f) && p < |s.frames| && !InTree(s, p)
    requires s.frames[f].parent == InPool(g) && InTree(s, g) && FrameSound(s, g) && f != g && s.frames[g].node.Inner?
    ensures RootIs(SplitInnerUnder(s, f, g, p, b), slot, root) && InTree(SplitInnerUnder(s, f, g, p, b), g)
  {
    var s' := SplitInnerUnder(s, f, g, p, b);
    SplitInnerUnderIsCut(s, f, g, p, b);
    forall x: FrameId | InTree(s', x)
      ensures s'.frames[x].pos == HOT && (s'.frames[x].parent == SuperRoot ==> s'.frames[x].remote == root)
    {
      if x != f && x != p {
        assert Bystander(s, s', f, p, x);
        assert InTree(s, x);
      } else {
        assert InTree(s, f);
      }
    }
    var r := slot.frame;
    assert Bystander(s, s', f, p, r);
    NotMoved(s, f, r);
  }

  // --- A new root ---

  /** The root has been halved, its upper half is at b, and the page above them is still missing. */
  ghost predicate Rootless(s: State, st: Store, root: GlobalAddress, height: nat, m: map<Key, Value>,
                           f: FrameId, b: GlobalAddress, right: Slot) {
    && TreeOk(st, root, height) && Holds(st, m) && NodeOk(st[root]) && st[root].Full() && b !in st
    && Inv(s, HalvedAt(st, root, b), {}) && Settled(s)
    && InTree(s, f) && s.frames[f].remote == root && s.frames[f].parent == SuperRoot
    && LeadsTo(s, right, b)
    && (right.Tagged? ==> InTree(s, right.frame) && s.frames[right.frame].parent == SuperRoot && right.frame != f)
    && forall x: FrameId {:trigger InTree(s, x)} | InTree(s, x) && s.frames[x].parent == SuperRoot ::
       x == f || right == Tagged(x)
  }

  lemma LeafHalved(s: State, st: Store, slot: Slot, root: GlobalAddress, height: nat, m: map<Key, Value>,
                   b: GlobalAddress)
    requires TreeInv(s, st, slot, root, height, m) && FullLeaf(s, slot.frame) && b !in st
    ensures NodeOk(s.frames[slot.frame].node)
    ensures Rootless(SplitLeafTop(s, slot.frame, b), st, root, height, m, slot.frame, b, Untagged(b))
  {
    var f := slot.frame;
    SplitLeafTopKeeps(s, st, f, b);
    var s' := SplitLeafTop(s, f, b);
    assert forall x: FrameId :: InTree(s', x) <==> InTree(s, x);
    forall x: FrameId | InTree(s', x) && s'.frames[x].parent == SuperRoot ensures x == f {
      assert InTree(s, x);
      OneHomePerAddress(s, st, x, f);
    }
  }

  lemma InnerHalvedQuiet(s: State, s1: State, st: Store, slot: Slot, root: GlobalAddress, height: nat,
                         m: map<Key, Value>, p: FrameId, b: GlobalAddress)
    requires TreeInv(s, st, slot, root, height, m) && s.frames[slot.frame].node.Inner?
             && s.frames[slot.frame].node.Full() && b !in st
    requires Takes(s, s1, p) && Reserved(s, b) && NodeOk(s.frames[slot.frame].node)
    ensures p < |s1.frames| && s1.frames == s.frames
    ensures Rootless(SplitInnerTop(s1, slot.frame, p, b), st, root, height, m, slot.frame, b, Tagged(p))
  {
    var f := slot.frame;
    TakesKeeps(s, s1, st, p);
    assert p in {p};
    assert FrameSound(s1, f);
    QuietTop(s, s1, slot, root);
    SplitInnerTopKeeps(s1, st, f, p, b);
    InnerHalvedTop(s1, st, root, f, p, b);
  }

  lemma InnerHalvedTop(s: State, st: Store, root: GlobalAddress, f: FrameId, p: FrameId, b: GlobalAddress)
    requires Inv(s, st, {p}) && FullInner(s, f) && p < |s.frames| && !InTree(s, p) && s.frames[f].parent == SuperRoot
    requires s.frames[f].remote == root && TopIs(s, root) && Settled(s)
    ensures var s' := SplitInnerTop(s, f, p, b);
            && Settled(s') && InTree(s', f) && s'.frames[f].remote == root && s'.frames[f].parent == SuperRoot && f != p
            && InTree(s', p) && s'.frames[p].parent == SuperRoot && s'.frames[p].remote == b
            && forall x: FrameId | InTree(s', x) && s'.frames[x].parent == SuperRoot :: x == f || x == p
  {
    var s' := SplitInnerTop(s, f, p, b);
    SplitInnerTopIsCut(s, f, p, b);
    assert InTree(s, f);
    forall x: FrameId | InTree(s', x)
      ensures s'.frames[x].pos == HOT && (s'.frames[x].parent == SuperRoot ==> x == f || x == p)
    {
      if x != f && x != p {
        assert Bystander(s, s', f, p, x);
        assert InTree(s, x);
        if s'.frames[x].parent == SuperRoot { OneHomePerAddress(s, st, x, f); }
      }
    }
  }

  /** Acquiring a frame leaves the halved root in place. */
  lemma RootlessKept(s: State, s1: State, st: Store, root: GlobalAddress, height: nat, m: map<Key, Value>,
                     f: FrameId, b: GlobalAddress, right: Slot, p: FrameId, level: nat)
    requires Rootless(s, st, root, height, m, f, b, right) && level == st[root].Level() + 1
    requires Calmer(s, s1) && Inv(s1, HalvedAt(st, root, b), {p}) && p < |s1.frames|
    ensures RootReady(s1, p, level, Split(st[root]).sep, f, right) && LeadsTo(s1, right, b)
    ensures s1.frames[f].remote == root
  {
    SplitOk(st[root]);
    assert p in {p};
    assert InTree(s1, f) && Stays(s, s1, f) && Mirrors(s1, HalvedAt(st, root, b), f);
    if right.Tagged? {
      assert InTree(s1, right.frame) && Stays(s, s1, right.frame) && Mirrors(s1, HalvedAt(st, root, b), right.frame);
    }
  }

  /** The new root completes the tree. */
  lemma RootDone(s: State, s1: State, st: Store, root: GlobalAddress, height: nat, m: map<Key, Value>,
                 f: FrameId, b: GlobalAddress, right: Slot, p: FrameId, r: GlobalAddress)
    requires Rootless(s, st, root, height, m, f, b, right) && Reserved(s1, r) && r !in HalvedAt(st, root, b)
    requires Calmer(s, s1) && Inv(s1, HalvedAt(st, root, b), {p}) && p < |s1.frames|
    ensures TreeInv(NewRoot(s1, p, r, st[root].Level() + 1, Split(st[root]).sep, f, right), GrowRoot(st, root, b, r),
                    Tagged(p), r, height + 1, m)
  {
    hide Reserved;
    hide Inv;
    var level, sep := st[root].Level() + 1, Split(st[root]).sep;
    RootlessKept(s, s1, st, root, height, m, f, b, right, p, level);
    NewRootKeeps(s1, HalvedAt(st, root, b), p, r, level, sep, f, right, b);
    GrowRootKeepsTree(st, root, height, m, b, r);
    NewRootTop(s, s1, p, r, level, sep, f, right);
  }

  lemma NewRootTop(s: State, s1: State, p: FrameId, r: GlobalAddress, level: nat, sep: Key, f: FrameId, right: Slot)
    requires Calmer(s, s1) && Settled(s) && RootReady(s1, p, level, sep, f, right)
    requires forall x: FrameId {:trigger InTree(s, x)} | InTree(s, x) && s.frames[x].parent == SuperRoot ::
             x == f || right == Tagged(x)
    ensures RootIs(NewRoot(s1, p, r, level, sep, f, right), Tagged(p), r)
  {
    var s', cs := NewRoot(s1, p, r, level, sep, f, right), [Tagged(f), right];
    assert cs[0] == Tagged(f) && cs[1] == right;
    forall x: FrameId | InTree(s', x)
      ensures s'.frames[x].pos == HOT && (s'.frames[x].parent == SuperRoot ==> s'.frames[x].remote == r)
    {
      if x != p {
        assert InTree(s1, x);
        assert InTree(s, x) && Stays(s, s1, x);
      }
    }
  }

  /** Reserving the new root's page leaves the halved root as it is. */
  lemma RootlessReserve(s: State, st: Store, root: GlobalAddress, height: nat, m: map<Key, Value>,
                        f: FrameId, b: GlobalAddress, right: Slot, r: GlobalAddress)
    requires Rootless(s, st, root, height, m, f, b, right) && r !in s.disk
    ensures Rootless(Reserve(s, r), st, root, height, m, f, b, right)
    ensures r !in HalvedAt(st, root, b) && Reserved(Reserve(s, r), r)
  {
    ReserveKeeps(s, HalvedAt(st, root, b), r);
    assert forall x: FrameId :: InTree(Reserve(s, r), x) <==> InTree(s, x);
  }

  /** ... and it is still reserved once a frame has been acquired. */
  lemma StillReserved(s: State, s1: State, st: Store, r: GlobalAddress, hand: set<FrameId>)
    requires Inv(s, st, hand) && Calmer(s, s1) && Reserved(s, r) && r !in st
    ensures Reserved(s1, r)
  {
    forall f: FrameId | InTree(s, f) ensures s.frames[f].remote != r {
      assert Mirrors(s, st, f);
    }
    assert s1.disk[r] == s.disk[r];
  }

  /** From the state in which the new root got its frame to the finished tree. */
  lemma NewRootWhole(s: State, s1: State, st: Store, root: GlobalAddress, height: nat, m: map<Key, Value>,
                     f: FrameId, b: GlobalAddress, right: Slot, p: FrameId, r: GlobalAddress, level: nat, sep: Key)
    requires Rootless(s, st, root, height, m, f, b, right) && Reserved(s, r) && r !in HalvedAt(st, root, b)
    requires Calmer(s, s1) && Inv(s1, HalvedAt(st, root, b), {p}) && p < |s1.frames|
    requires level == st[root].Level() + 1 && sep == Split(st[root]).sep
    ensures RootReady(s1, p, level, sep, f, right)
    ensures TreeInv(NewRoot(s1, p, r, level, sep, f, right), GrowRoot(st, root, b, r), Tagged(p), r, height + 1, m)
  {
    StillReserved(s, s1, HalvedAt(st, root, b), r, {});
    RootlessKept(s, s1, st, root, height, m, f, b, right, p, level);
    RootDone(s, s1, st, root, height, m, f, b, right, p, r);
  }

  /** The order in which make_new_root does it: the root is admitted, then its children re-parented. */
  lemma NewRootIs(s: State, p: FrameId, r: GlobalAddress, level: nat, sep: Key, f: FrameId, right: Slot)
    requires RootReady(s, p, level, sep, f, right)
    ensures var page := RootPage(r, level, sep, f, right);
            var s1 := Admit(s, p, page);
            var s2 := s1.(frames := s1.frames[f := s1.frames[f].(parent := InPool(p))]);
            var s3 :=
              if right.Tagged?
              then s2.(frames := s2.frames[right.frame := s2.frames[right.frame].(parent := InPool(p))])
              else s2;
            s3 == NewRoot(s, p, r, level, sep, f, right)
  {
    var cs := [Tagged(f), right];
    assert forall x: FrameId :: Tagged(x) in cs <==> x == f || right == Tagged(x);
  }

  /** Everything an inner split under its parent keeps, with the page counts. */
  lemma InnerSplitWhole(s: State, s1: State, st: Store, slot: Slot, root: GlobalAddress, height: nat,
                        m: map<Key, Value>, f: FrameId, g: FrameId, i: nat, p: FrameId, b: GlobalAddress)
    requires TreeInv(s, st, slot, root, height, m) && FullChild(s, f, g, i) && s.frames[f].node.Inner? && b !in st
    requires Takes(s, s1, p) && Reserved(s, b)
    requires NodeOk(s.frames[f].node) && NodeOk(s.frames[g].node)
             && CanSplit(st, root, height, s.frames[g].remote, i, b)
    ensures p < |s1.frames| && s1.frames == s.frames
    ensures var s2, st' := SplitInnerUnder(s1, f, g, p, b), SplitUnder(st, s.frames[g].remote, i, b);
            && TreeInv(s2, st', slot, root, height, m)
            && |Leaves(st')| == |Leaves(st)| && |Inners(st')| == |Inners(st)| + 1
            && InTree(s2, g) && s2.frames[g].remote == s.frames[g].remote && s2.frames[g].node.Inner?
  {
    InnerSplitQuiet(s, s1, st, slot, root, height, m, f, g, i, p, b);
    CountInnerSplit(s, st, slot, root, height, m, f, g, i, b);
  }

  lemma CountInnerSplit(s: State, st: Store, slot: Slot, root: GlobalAddress, height: nat, m: map<Key, Value>,
                        f: FrameId, g: FrameId, i: nat, b: GlobalAddress)
    requires TreeInv(s, st, slot, root, height, m) && FullChild(s, f, g, i) && s.frames[f].node.Inner?
    requires CanSplit(st, root, height, s.frames[g].remote, i, b)
    ensures var st' := SplitUnder(st, s.frames[g].remote, i, b);
            |Leaves(st')| == |Leaves(st)| && |Inners(st')| == |Inners(st)| + 1
  {
    CountSplitUnder(st, root, height, s.frames[g].remote, i, b);
    SlotOfFrame(s, st, root, height, {}, g, i);
    assert Mirrors(s, st, f);
  }

  /** What the code needs to know of the pool when a frame p for an inner sibling is in hand. */
  lemma InnerSplitReady(s: State, s1: State, st: Store, slot: Slot, root: GlobalAddress, height: nat,
                        m: map<Key, Value>, f: FrameId, g: FrameId, i: nat, p: FrameId, b: GlobalAddress)
    requires TreeInv(s, st, slot, root, height, m) && FullChild(s, f, g, i) && s.frames[f].node.Inner? && b !in st
    requires Takes(s, s1, p)
    ensures CanHang(s1, f, g, p, b)
  {
    FullChildShape(s, st, slot, root, height, m, f, g, i, b);
    TakesKeeps(s, s1, st, p);
    assert p in {p};
    assert FrameSound(s1, f) && FrameSound(s1, g) && SlotSound(s1, g, i);
    OuterNotMoved(s1, f, g, p, b);
  }

  /** The frame f hangs from is not among the children that move. */
  lemma OuterNotMoved(s: State, f: FrameId, g: FrameId, p: FrameId, b: GlobalAddress)
    requires Swizzled(s) && FullInner(s, f) && p < |s.frames| && !InTree(s, p) && InTree(s, g) && g != f
    requires s.frames[f].parent == InPool(g)
    ensures SplitInnerTop(s, f, p, b).frames[g] == s.frames[g]
  {
    var n, cs := s.frames[f].node, Split(s.frames[f].node).right.children;
    if Tagged(g) in cs {
      var o :| 0 <= o < |cs| && cs[o] == Tagged(g);
      assert n.children[|Split(n).left.children| + o] == Tagged(g);
      ChildOf(s, f, |Split(n).left.children| + o);
    }
  }
}
