/** How the pages of a sound tree sit in a sound cache. */
module TreeFacts {
  import opened Types
  import opened Node
  import opened BPlusTree
  import opened CacheState
  import opened CacheSteps
  import opened LoadSteps
  import opened SplitSteps

  /** Only frames of the root's address hang from super_root_. */
  ghost predicate TopIs(s: State, root: GlobalAddress) {
    forall f: FrameId {:trigger InTree(s, f)} | InTree(s, f) && s.frames[f].parent == SuperRoot ::
        s.frames[f].remote == root
  }

  /** No frame is pinned. */
  ghost predicate Settled(s: State) {
    forall f: FrameId {:trigger InTree(s, f)} | InTree(s, f) :: s.frames[f].pos == HOT
  }

  /** The frame super_root_ points at is resident and is the root. */
  ghost predicate RootIs(s: State, slot: Slot, root: GlobalAddress) {
    && slot.Tagged? && InTree(s, slot.frame)
    && s.frames[slot.frame].remote == root && s.frames[slot.frame].parent == SuperRoot
    && TopIs(s, root) && Settled(s)
  }

  /** Some page on the way to k is not in the pool. */
  ghost predicate Misses(s: State, st: Store, k: Key) {
    exists a :: MissedAt(s, st, k, a)
  }

  ghost predicate MissedAt(s: State, st: Store, k: Key, a: GlobalAddress) {
    a in st && st[a].Covers(k) && NotResident(s, a)
  }

  /** The pages on the way to k that are not in the pool. */
  ghost function Missing(s: State, st: Store, k: Key): set<GlobalAddress> {
    set a | a in st && MissedAt(s, st, k, a)
  }

  /** Frames can be had for all of them without running the sampler. */
  ghost predicate Served(s: State, st: Store, k: Key) {
    Serves(s, |Missing(s, st, k)|)
  }

  /** From s to s' one frame was taken, and the page at a is in the pool. */
  ghost predicate OneMiss(s: State, s': State, a: GlobalAddress) {
    && (forall n: nat {:trigger Serves(s', n)} :: Serves(s, n + 1) ==> Serves(s', n))
    && forall x :: NotResident(s', x) <==> NotResident(s, x) && x != a
  }

  /** No page but the one at a has come into the pool. */
  ghost predicate OnlyCame(s: State, s': State, a: GlobalAddress) {
    forall x | NotResident(s, x) && x != a :: NotResident(s', x)
  }

  /** A miss on the way to k is served, and then there is one less. */
  lemma MissServed(s: State, st: Store, k: Key, a: GlobalAddress)
    requires MissedAt(s, st, k, a) && Served(s, st, k)
    ensures !NothingAtHand(s)
    ensures forall s' | OneMiss(s, s', a) :: Served(s', st, k)
  {
    assert a in Missing(s, st, k);
    forall s' | OneMiss(s, s', a) ensures Served(s', st, k) {
      assert Missing(s', st, k) == Missing(s, st, k) - {a};
      assert Serves(s, |Missing(s', st, k)| + 1);
    }
  }

  /** With nothing missing every pool serves. */
  lemma UnservedMisses(s: State, st: Store, k: Key)
    requires !Served(s, st, k)
    ensures Misses(s, st, k)
  {
    if Missing(s, st, k) != {} {
      var a :| a in Missing(s, st, k);
      assert MissedAt(s, st, k, a);
    }
  }

  /** A search for k has come from s to s': what could be served still can, only pages on the way have come
      into the pool, and with all of these there nothing has changed. */
  ghost predicate Onward(s: State, st: Store, k: Key, s': State) {
    && (Served(s, st, k) ==> Served(s', st, k)) && (Misses(s, st, k) || s' == s)
    && OnlyWayCame(s, st, k, s')
  }

  ghost predicate OnlyWayCame(s: State, st: Store, k: Key, s': State) {
    forall x | NotResident(s, x) && !NotResident(s', x) :: x in st && st[x].Covers(k)
  }

  lemma OnwardItself(s: State, st: Store, k: Key)
    ensures Onward(s, st, k, s)
  {
  }

  /** One page on the way has come into the pool. */
  lemma OnwardByOne(s: State, st: Store, k: Key, a: GlobalAddress, s': State)
    requires MissedAt(s, st, k, a) && OnlyCame(s, s', a) && (!NothingAtHand(s) ==> OneMiss(s, s', a))
    ensures Onward(s, st, k, s')
  {
    if Served(s, st, k) { MissServed(s, st, k, a); }
  }

  lemma OnwardThen(s: State, s1: State, s2: State, st: Store, k: Key)
    requires Onward(s, st, k, s1) && Onward(s1, st, k, s2)
    ensures Onward(s, st, k, s2)
  {
  }

  /** Some page on the way to k is not in the pool or is full: what can hold up an insert. */
  ghost predicate Held(s: State, st: Store, k: Key) {
    Misses(s, st, k) || Crowded(st, k)
  }

  ghost predicate Crowded(st: Store, k: Key) {
    exists a :: FullAt(st, k, a)
  }

  /** Nothing but what the leaf of k stores has changed. */
  ghost predicate OnlyLeafOf(st: Store, st': Store, k: Key) {
    && st'.Keys == st.Keys
    && forall a | a in st ::
         st'[a] == st[a] ||
         (st[a].Leaf? && st'[a].Leaf? && st[a].Covers(k) && st'[a] == st[a].(entries := st'[a].entries))
  }

  lemma SameLeaves(st: Store, k: Key)
    ensures OnlyLeafOf(st, st, k)
  {
  }

  /** A resident leaf on the way to k got other entries, and nothing else happened. */
  ghost predicate LeafWrite(s: State, st: Store, k: Key, s': State) {
    exists f: FrameId, es :: LeafWriteAt(s, st, k, s', f, es)
  }

  ghost predicate LeafWriteAt(s: State, st: Store, k: Key, s': State, f: FrameId, es: seq<Entry>) {
    && InTree(s, f) && s.frames[f].node.Leaf? && s.frames[f].remote in st && st[s.frames[f].remote].Covers(k)
    && s' == WriteLeaf(s, f, es)
  }

  ghost predicate FullAt(st: Store, k: Key, a: GlobalAddress) {
    a in st && st[a].Covers(k) && (if st[a].Leaf? then |st[a].entries| == 59 else |st[a].keys| == 59)
  }

  /** Frames under super_root_ are the same before and after. */
  ghost predicate TopKept(s: State, s': State) {
    && |s'.frames| == |s.frames|
    && (forall f: FrameId {:trigger InTree(s', f)} | InTree(s', f) && s'.frames[f].parent == SuperRoot ::
          InTree(s, f) && s.frames[f].parent == SuperRoot && s.frames[f].remote == s'.frames[f].remote)
    && (forall f: FrameId {:trigger InTree(s, f)} | InTree(s, f) && s.frames[f].parent == SuperRoot ::
          InTree(s', f) && s'.frames[f].parent == SuperRoot && s.frames[f].remote == s'.frames[f].remote)
  }

  lemma RootKept(s: State, s': State, slot: Slot, root: GlobalAddress)
    requires RootIs(s, slot, root) && TopKept(s, s') && Settled(s')
    ensures RootIs(s', slot, root)
  {
    assert InTree(s, slot.frame);
  }

  lemma CalmerKeepsTop(s: State, s': State)
    requires Calmer(s, s')
    ensures TopKept(s, s')
  {
    forall f: FrameId | InTree(s', f) && s'.frames[f].parent == SuperRoot
      ensures InTree(s, f) && s.frames[f].parent == SuperRoot && s.frames[f].remote == s'.frames[f].remote
    {
      assert Stays(s, s', f);
    }
    forall f: FrameId | InTree(s, f) && s.frames[f].parent == SuperRoot
      ensures InTree(s', f) && s'.frames[f].parent == SuperRoot && s.frames[f].remote == s'.frames[f].remote
    {
      assert Stays(s, s', f);
    }
  }

  /** What a resident inner frame says about its slot i. */
  lemma SlotOfFrame(s: State, st: Store, root: GlobalAddress, height: nat, hand: set<FrameId>, g: FrameId, i: nat)
    requires Inv(s, st, hand) && TreeOk(st, root, height) && InTree(s, g) && s.frames[g].node.Inner?
    requires i < |s.frames[g].node.children|
    ensures var n, a := s.frames[g].node, s.frames[g].remote;
            && a in st && st[a].Inner? && NodeOk(st[a]) && NodeOk(n) && |st[a].children| == |n.children| == |n.keys| + 1
            && st[a].keys == n.keys && st[a].lo == n.lo && st[a].hi == n.hi && st[a].level == n.level
            && LeadsTo(s, n.children[i], st[a].children[i])
            && SlotOk(st, st[a], i) && Fits(st[st[a].children[i]], n, i)
  {
    assert FrameSound(s, g) && Mirrors(s, st, g);
    var a := s.frames[g].remote;
    assert LinkOk(st, st[a]);
    assert SlotOk(st, st[a], i);
    assert NodeOk(st[a]);
  }

  /** With backend offsets below 2^47 the tag bit of a stored slot never misleads. */
  lemma SlotsDecode(s: State, st: Store, root: GlobalAddress, height: nat, g: FrameId, i: nat)
    requires Inv(s, st, {}) && TreeOk(st, root, height) && InTree(s, g) && s.frames[g].node.Inner?
    requires i < |s.frames[g].node.children| && |s.frames| <= TWO_48
    requires forall a | a in s.disk :: a.nodeID < TWO_16 && a.offset < TWO_47
    ensures Decode(Encode(s.frames[g].node.children[i])) == s.frames[g].node.children[i]
    ensures Encode(s.frames[g].node.children[i]) < 2 * TWO_63
  {
    SlotOfFrame(s, st, root, height, {}, g, i);
    assert FrameSound(s, g) && SlotSound(s, g, i);
    assert DiskSound(s, st, st[s.frames[g].remote].children[i]);
    SlotRoundTrip(s.frames[g].node.children[i]);
  }

  /** The child behind an unswizzled slot has no resident frame at all. */
  lemma UnswizzledIsNotResident(s: State, st: Store, root: GlobalAddress, height: nat, g: FrameId, i: nat)
    requires Inv(s, st, {}) && TreeOk(st, root, height) && TopIs(s, root)
    requires InTree(s, g) && s.frames[g].node.Inner? && i < |s.frames[g].node.children|
    requires s.frames[g].node.children[i].Untagged?
    ensures NotResident(s, s.frames[g].node.children[i].addr)
  {
    var a := s.frames[g].node.children[i].addr;
    SlotOfFrame(s, st, root, height, {}, g, i);
    forall f: FrameId | InTree(s, f) ensures s.frames[f].remote != a {
      if s.frames[f].remote == a {
        assert FrameSound(s, f);
        RootIsNoChild(st, root, height, s.frames[g].remote, i);
        var q := s.frames[f].parent.frame;
        var j :| 0 <= j < |s.frames[q].node.children| && s.frames[q].node.children[j] == Tagged(f);
        SlotOfFrame(s, st, root, height, {}, q, j);
        OnlyParent(st, root, height, s.frames[g].remote, i, s.frames[q].remote, j);
        OneHomePerAddress(s, st, g, q);
        assert false;
      }
    }
  }

  lemma RootIsNoChild(st: Store, root: GlobalAddress, height: nat, p: GlobalAddress, i: nat)
    requires TreeOk(st, root, height) && p in st && SlotOk(st, st[p], i)
    ensures st[p].children[i] != root
  {
    if p != root {
      assert Below(st[p], height);
    }
  }

  // --- Reserving a backend page ---

  function Reserve(s: State, b: GlobalAddress): State {
    s.(disk := s.disk[b := BLANK])
  }

  lemma ReserveKeeps(s: State, st: Store, b: GlobalAddress)
    requires Inv(s, st, {}) && b !in s.disk
    ensures b !in st && Inv(Reserve(s, b), st, {}) && Reserved(Reserve(s, b), b)
  {
    var s' := Reserve(s, b);
    forall a | a in st ensures DiskSound(s', st, a) && a != b {
      assert DiskSound(s, st, a);
    }
    forall f: FrameId | InTree(s', f) ensures FrameSound(s', f) && Mirrors(s', st, f) {
      assert InTree(s, f) && FrameSound(s, f) && Mirrors(s, st, f);
      KeepFrame(s, s', f);
      KeepSays(s, s', f, st[s.frames[f].remote]);
    }
    SamePlaces(s, s', {});
  }

  // --- Splits of the store, counted ---

  function Leaves(st: Store): set<GlobalAddress> {
    set a | a in st && st[a].Leaf?
  }

  function Inners(st: Store): set<GlobalAddress> {
    set a | a in st && st[a].Inner?
  }

  /** One page more, and every other page of the same kind as before. */
  lemma CountOneMore(st: Store, st': Store, b: GlobalAddress)
    requires b !in st && b in st' && forall a :: a in st' <==> a in st || a == b
    requires forall a | a in st :: st'[a].Leaf? == st[a].Leaf?
    ensures |Leaves(st')| == |Leaves(st)| + (if st'[b].Leaf? then 1 else 0)
    ensures |Inners(st')| == |Inners(st)| + (if st'[b].Leaf? then 0 else 1)
  {
    if st'[b].Leaf? {
      assert Leaves(st') == Leaves(st) + {b} && Inners(st') == Inners(st);
    } else {
      assert Leaves(st') == Leaves(st) && Inners(st') == Inners(st) + {b};
    }
  }

  lemma CountSplitUnder(st: Store, root: GlobalAddress, height: nat, p: GlobalAddress, i: nat, b: GlobalAddress)
    requires CanSplit(st, root, height, p, i, b)
    ensures var a, st' := st[p].children[i], SplitUnder(st, p, i, b);
            && (st[a].Leaf? ==> |Leaves(st')| == |Leaves(st)| + 1 && |Inners(st')| == |Inners(st)|)
            && (st[a].Inner? ==> |Leaves(st')| == |Leaves(st)| && |Inners(st')| == |Inners(st)| + 1)
  {
    CountOneMore(st, SplitUnder(st, p, i, b), b);
  }

  lemma CountGrowRoot(st: Store, root: GlobalAddress, height: nat, b: GlobalAddress, r: GlobalAddress)
    requires TreeOk(st, root, height) && NodeOk(st[root]) && st[root].Full() && b !in st && r !in st && b != r
    ensures var st' := GrowRoot(st, root, b, r);
            && (st[root].Leaf? ==> |Leaves(st')| == |Leaves(st)| + 1 && |Inners(st')| == |Inners(st)| + 1)
            && (st[root].Inner? ==> |Leaves(st')| == |Leaves(st)| && |Inners(st')| == |Inners(st)| + 2)
  {
    var mid := HalvedAt(st, root, b);
    CountOneMore(st, mid, b);
    CountOneMore(mid, GrowRoot(st, root, b, r), r);
  }

  lemma CountWithLeaf(st: Store, a: GlobalAddress, es: seq<Entry>)
    requires a in st && st[a].Leaf?
    ensures Leaves(WithLeaf(st, a, es)) == Leaves(st) && Inners(WithLeaf(st, a, es)) == Inners(st)
  {
  }

  // --- Readiness of a full child for its split ---

  /** A full child in slot i of a frame with room is ready to be split. */
  lemma FullChildReady(s: State, st: Store, root: GlobalAddress, height: nat, f: FrameId, g: FrameId, i: nat,
                       b: GlobalAddress)
    requires Inv(s, st, {}) && TreeOk(st, root, height) && InTree(s, g) && s.frames[g].node.Inner?
             && !s.frames[g].node.Full()
    requires i < |s.frames[g].node.children| && s.frames[g].node.children[i] == Tagged(f)
    requires InTree(s, f) && s.frames[f].node.Full() && b !in st
    ensures NodeOk(s.frames[f].node) && CanSplit(st, root, height, s.frames[g].remote, i, b)
    ensures SplitReady(s, st, f, g, i, b)
  {
    var ga := s.frames[g].remote;
    SlotOfFrame(s, st, root, height, {}, g, i);
    assert FrameSound(s, f) && FrameSound(s, g) && SlotSound(s, g, i);
    assert Mirrors(s, st, f);
    SplitSays(s, s.frames[f].node, st[s.frames[f].remote]);
    assert CanSplit(st, root, height, ga, i, b);
    SplitUnderShape(st, root, height, ga, i, b);
    SplitOk(s.frames[f].node);
  }

  /** Taking a frame does not look at page bodies, so it can be moved before a page is cut. */
  lemma TakesCommutes(s: State, cut: State, s': State, p: FrameId)
    requires cut == s.(frames := cut.frames) && |cut.frames| == |s.frames| && Takes(cut, s', p)
    ensures Takes(s, s'.(frames := s.frames), p) && s'.frames == cut.frames
  {
    if cut.dynamic && !(cut.free != [] && p == cut.free[|cut.free| - 1] && s' == TakeFree(cut)) {
      var b: nat :| FirstProbed(cut.cool, b) && p == cut.cool[b][|cut.cool[b]| - 1].page && s' == TakeCooled(cut, b);
      assert s'.(frames := s.frames) == TakeCooled(s, b);
    }
  }
}
