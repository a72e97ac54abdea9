/** The B+tree over the cache (include/tree/LeanStoreTree.h). Whatever frames the cache cools
    or recycles on the way, every operation that returns behaves like a plain map. */
module LeanStoreTree {
  import opened Types
  import opened Node
  import opened BPlusTree
  import opened CacheState
  import opened CacheSteps
  import opened LoadSteps
  import opened SplitSteps
  import opened TreeFacts
  import opened SplitCount
  import opened TreeDescent
  import opened TreeGrowth
  import opened TreeShape
  import opened WarmUp
  import opened SampleSteps
  import opened SplitWindow
  import opened WindowRuns
  import opened Backend
  import opened CacheManager

  /** Why a run ends early: the sampler's thousandth try leaves the process, the backend is full,
      or the sampler is about to run in the window of an inner split where it can do harm. */
  datatype Halt = SamplerGaveUp | BackendFull | SplitHazard

  datatype Outcome<+T> = Done(value: T) | Halted(why: Halt) {
    predicate IsFailure() { Halted? }

    function PropagateFailure<U>(): Outcome<U>
      requires Halted?
    {
      Halted(why)
    }

    function Extract(): T
      requires Done?
    {
      value
    }
  }

  class LeanStoreTree {
    const cache: CacheManager
    var rootSlot: Slot        // super_root_->children[0]
    var root: GlobalAddress   // root_
    var height: nat
    var leafNum: nat
    var innerNum: nat
    ghost var contents: map<Key, Value>

    ghost function Repr(): set<object> {
      {this as object} + cache.Repr()
    }

    ghost predicate Wired()
      reads Repr()
    {
      this !in cache.Repr() && cache.Wired()
    }

    ghost predicate Valid()
      reads Repr()
    {
      && Wired() && !cache.gaveUp
      && TreeInv(cache.S(), cache.logical, rootSlot, root, height, contents)
      && leafNum == |Leaves(cache.logical)| && innerNum == |Inners(cache.logical)|
    }

    /** What of the backend's pages the tree does not use: the first one, which stands for NULL. */
    ghost function Spare(): int
      reads this, cache.backend
    {
      cache.backend.curOffset - PAGE_SIZE * (leafNum + innerNum)
    }

    /** The backend cannot give that many pages more. */
    ghost predicate NoRoom(pages: nat)
      reads cache.backend
    {
      cache.backend.curOffset + PAGE_SIZE * pages > cache.backend.capacityBytes
    }

    /** The tree is what it was; only the cache may have moved pages. */
    twostate predicate SameTree()
      reads this, cache, cache.backend
    {
      && cache.backend.curOffset == old(cache.backend.curOffset)
      && rootSlot == old(rootSlot) && root == old(root) && height == old(height) && contents == old(contents)
      && leafNum == old(leafNum) && innerNum == old(innerNum) && cache.logical == old(cache.logical)
    }

    /** No page has come to the tree and none has left it. */
    twostate predicate SameCounts()
      reads this, cache.backend
    {
      && cache.backend.curOffset == old(cache.backend.curOffset)
      && rootSlot == old(rootSlot) && root == old(root) && height == old(height)
      && leafNum == old(leafNum) && innerNum == old(innerNum)
    }

    /** Nothing of the tree's own has changed. */
    twostate predicate Untouched()
      reads this, cache.backend
    {
      && cache.backend.curOffset == old(cache.backend.curOffset)
      && rootSlot == old(rootSlot) && root == old(root) && height == old(height) && contents == old(contents)
      && leafNum == old(leafNum) && innerNum == old(innerNum)
    }

    /** The logical pages hold the map, and the pool shows a sound state of them, with one page of it cut
        in the window of an inner split. */
    ghost predicate Intact()
      reads Repr()
    {
      Wired() && Holds(cache.logical, contents) && exists s, cut, loose :: cache.Stands(s, cut, loose)
    }

    /** What is the matter when an operation does not return; nothing of the map is lost. */
    ghost predicate Exhausted(why: Halt)
      reads Repr()
    {
      && Intact()
      && match why
         case SamplerGaveUp =>
           && cache.gaveUp && cache.dynamic && Barren(cache.S()) && cache.WorkedInVain()
           && exists s, cut, loose :: cache.Stands(s, cut, loose) && cache.Starved(s, cut)
         case BackendFull => cache.backend.curOffset + PAGE_SIZE > cache.backend.capacityBytes
         case SplitHazard =>
           && cache.dynamic && Deadly(cache.S())
           && exists s, cut, loose :: cache.Stands(s, cut, loose) && Harmful(s, cut) && cache.Starved(s, cut)
    }

    lemma SoundIsIntact()
      requires Wired() && Inv(cache.S(), cache.logical, {}) && Holds(cache.logical, contents)
      ensures Intact()
    {
      FreedNone(cache.S());
      assert cache.Stands(cache.S(), None, {});
    }

    lemma Counted()
      requires Valid()
      ensures leafNum == |Leaves(cache.logical)| && innerNum == |Inners(cache.logical)|
    {
    }

    /** The root's frame and its logical page split alike. */
    lemma FullRootNow()
      requires Valid() && rootSlot.Tagged? && rootSlot.frame < cache.pool.Length
               && cache.pool[rootSlot.frame].node.Full()
      ensures Wired() && root in cache.logical && NodeOk(cache.logical[root]) && cache.logical[root].Full()
      ensures var n, n' := cache.pool[rootSlot.frame].node, cache.logical[root];
              && NodeOk(n) && n'.Leaf? == n.Leaf? && n'.Level() == n.Level() && Split(n').sep == Split(n).sep
    {
      RootSplitFacts(cache.S(), cache.logical, rootSlot, root, height, contents);
    }

    lemma RootInPool()
      requires Valid()
      ensures rootSlot.Tagged? && rootSlot.frame < cache.pool.Length
    {
    }

    lemma TreeHolds()
      requires Valid()
      ensures Holds(cache.logical, contents) && TreeInv(cache.S(), cache.logical, rootSlot, root, height, contents)
    {
    }

    /** The pool is warming up, with a frame for every page the backend can allocate. */
    ghost predicate Roomy()
      reads Repr()
    {
      Warm(cache.S()) && cache.backend.store.Length <= cache.pool.Length + 1
    }

    lemma DiskWithinStore()
      requires Wired()
      ensures WithinPages(cache.S(), cache.backend.store.Length)
    {
    }

    /** A page that is not resident finds an unused frame while there is room. */
    lemma RoomForPage(a: GlobalAddress)
      requires Valid() && Roomy() && a in cache.backend.disk && NotResident(cache.S(), a)
      ensures !cache.dynamic
    {
      DiskWithinStore();
      FrameForEveryPage(cache.S(), cache.logical, cache.backend.store.Length, a);
    }

    /** ... and so does a new one. */
    lemma RoomForNewPage(st: Store, b: GlobalAddress)
      requires Wired() && Roomy() && Inv(cache.S(), st, {}) && Reserved(cache.S(), b) && b !in st
      ensures !cache.dynamic
    {
      DiskWithinStore();
      FrameForNewPage(cache.S(), st, cache.backend.store.Length, b);
    }

    /** Frame f is a resident inner page of the tree. */
    ghost predicate InnerFrame(f: FrameId)
      reads Repr()
    {
      InTree(cache.S(), f) && cache.pool[f].node.Inner?
    }

    constructor (backend: InMemoryBackend, capacity: nat, coolingEntries: nat, hash: GlobalAddress -> Hash)
      requires backend.Valid() && backend.Unwritten() && backend.curOffset + PAGE_SIZE <= backend.capacityBytes
      requires 0 < capacity <= TWO_48 && 0 < coolingEntries
      modifies backend, backend.store
      ensures Valid() && contents == map[] && cache.backend == backend
      ensures fresh(Repr() - {backend, backend.store})
      ensures Spare() == old(backend.curOffset) && height == 1
      ensures backend.store.Length <= capacity + 1 ==> Roomy()
    {
      hide Warm, TreeInv, Inv;
      cache := new CacheManager(backend, capacity, coolingEntries, hash);
      height, leafNum, innerNum := 1, 1, 0;
      rootSlot := Untagged(NULL);
      root := NULL;
      contents := map[];
      new;
      UnusedIsWarm(cache.S());
      LoadRoot();
    }

    /** The end of the constructor: the first leaf is allocated and brought into the cache. */
    method LoadRoot()
      requires Wired() && cache.Valid() && !cache.dynamic && cache.logical == map[] && Residents(cache.S()) == {}
      requires cache.backend.curOffset + PAGE_SIZE <= cache.backend.capacityBytes
      requires height == 1 && leafNum == 1 && innerNum == 0 && contents == map[]
      modifies Repr()
      ensures cache.backend.curOffset == old(cache.backend.curOffset) + PAGE_SIZE
      ensures height == 1 && leafNum == 1 && innerNum == 0
      ensures Valid() && contents == map[] && (old(Warm(cache.S())) ==> Warm(cache.S()))
    {
      hide TreeInv, Inv, FirstStore, Warm, TreeOk, Leaves, Inners, Holds, RootIs, Residents;
      PlaceFirstLeaf();
      var p := LoadTop(root);
      assert height == 1 && leafNum == 1 && innerNum == 0 && contents == map[];
      rootSlot := Tagged(p);
      FirstTree(root);
    }

    /** The first leaf goes to the backend. */
    method PlaceFirstLeaf()
      requires Wired() && cache.Valid() && !cache.dynamic && cache.logical == map[] && Residents(cache.S()) == {}
      requires cache.backend.curOffset + PAGE_SIZE <= cache.backend.capacityBytes
      modifies this`root, cache`logical, cache.backend, cache.backend.store
      ensures Wired() && cache.Valid() && !cache.dynamic && Residents(cache.S()) == {}
              && cache.logical == FirstStore(root)
      ensures root in cache.backend.disk && Fetched(cache.logical, cache.backend.disk[root], root)
      ensures cache.backend.curOffset == old(cache.backend.curOffset) + PAGE_SIZE
      ensures old(Warm(cache.S())) ==> Warm(cache.S())
    {
      ghost var s0 := cache.S();
      root := AllocateLeaf(0, KEY_MAX);
      cache.SetLogical(FirstStore(root));
      FirstPage(s0, cache.S(), root);
      if Warm(s0) { AsWarm(s0, cache.S()); }
    }

    /** load_child on super_root_'s slot, when nothing is resident yet. */
    method LoadTop(a: GlobalAddress) returns (p: FrameId)
      requires Wired() && cache.Valid() && !cache.dynamic && Residents(cache.S()) == {}
      requires cache.logical == FirstStore(a) && a in cache.backend.disk
               && Fetched(cache.logical, cache.backend.disk[a], a)
      modifies cache.Repr()
      ensures Wired() && !cache.gaveUp && cache.logical == FirstStore(a)
              && TreeInv(cache.S(), FirstStore(a), Tagged(p), a, 1, map[])
      ensures cache.backend.curOffset == old(cache.backend.curOffset)
      ensures old(Warm(cache.S())) ==> Warm(cache.S())
    {
      hide Inv;
      ghost var s := cache.S();
      var buf := cache.ReadPage(a);
      var page, s1 := cache.CacheInsert(buf, SuperRoot);
      p := page.value;
      AdmitThenHot(s1, p, buf, SuperRoot);
      cache.SetFrame(p, cache.pool[p].(pos := HOT));
      FirstRoot(s, s1, a, p, buf);
      if Warm(s) { WarmerByOne(s, s1, p, cache.S()); }
    }

    /** allocate_leaf: an empty leaf with these limits, written to a new backend page. On a full
        backend the program writes it to the null address, where no tree page can be. */
    method AllocateLeaf(lo: Key, hi: Key) returns (a: GlobalAddress)
      requires cache.Wired()
      modifies cache.backend, cache.backend.store
      ensures cache.Wired()
      ensures a == NULL <==> old(cache.backend.curOffset) + PAGE_SIZE > cache.backend.capacityBytes
      ensures cache.backend.curOffset == old(cache.backend.curOffset) + (if a == NULL then 0 else PAGE_SIZE)
      ensures a == NULL ==> cache.S() == old(cache.S())
      ensures a != NULL ==> a !in old(cache.backend.disk)
                            && cache.S() == old(cache.S()).(disk := old(cache.backend.disk)[a := NewLeaf(a, lo, hi)])
    {
      ghost var disk := cache.backend.disk;
      a := cache.AllocPage();
      var ok := cache.backend.Write(a, NewLeaf(a, lo, hi));
      if a != NULL { WrittenTwice(disk, a, BLANK, NewLeaf(a, lo, hi)); }
    }

    // --- Loading ---

    /** load_child: the frame of child i of frame g, read from the backend if need be. */
    method LoadChild(g: FrameId, i: nat) returns (r: Outcome<FrameId>)
      requires Valid() && InnerFrame(g) && i < |cache.pool[g].node.children|
      modifies Repr()
      ensures Wired() && SameTree()
      ensures r.Done? ==>
                && Valid() && InnerFrame(g) && cache.pool[g].remote == old(cache.pool[g].remote)
                && i < |cache.pool[g].node.children| && cache.pool[g].node.children[i] == Tagged(r.value)
                && InTree(cache.S(), r.value)
                && var ga := cache.pool[g].remote;
                   ga in cache.logical && cache.logical[ga].Inner? && i < |cache.logical[ga].children|
                   && cache.pool[r.value].remote == cache.logical[ga].children[i]
      ensures old(cache.pool[g].node.children[i]).Tagged? ==> r.Done? && cache.S() == old(cache.S())
      ensures old(cache.pool[g].node.children[i]).Untagged? ==>
                var a := old(cache.pool[g].node.children[i]).addr;
                && (r.Halted? ==> r.why == SamplerGaveUp && NothingAtHand(old(cache.S())))
                && (r.Done? ==> Missed(old(cache.S()), cache.S(), g, i, r.value, old(cache.backend.disk), a)
                                && OnlyCame(old(cache.S()), cache.S(), a))
                && (!NothingAtHand(old(cache.S())) ==> OneMiss(old(cache.S()), cache.S(), a))
      ensures r.Halted? ==> Exhausted(r.why)
      ensures old(Roomy()) ==> r.Done? && Roomy()
    {
      hide Warm;
      ghost var s := cache.S();
      var slot := cache.pool[g].node.children[i];
      if slot.Tagged? {
        HitFound(s, cache.logical, rootSlot, root, height, contents, g, i);
        return Done(slot.frame);
      }
      r := LoadMissing(g, i, slot.addr);
    }

    /** The end of load_child: the slot, the bit and the two positions. */
    method SwizzleIn(g: FrameId, i: nat, p: FrameId, prevState: PosState)
      requires Wired() && g < cache.pool.Length && p < cache.pool.Length
      requires cache.pool[g].node.Inner? && i < |cache.pool[g].node.children| && g != p
      modifies cache.pool
      ensures Wired() && cache.S() == SwizzledIn(old(cache.S()), g, i, p, prevState)
    {
      var n := cache.pool[g].node;
      cache.SetFrame(p, cache.pool[p].(pos := HOT));
      cache.SetFrame(g, cache.pool[g].(node := n.(children := n.children[i := Tagged(p)]),
                                       bitmap := cache.pool[g].bitmap + {i}, pos := prevState));
    }

    /** The parent is pinned and the child's page read. */
    method PinAndRead(g: FrameId, i: nat, a: GlobalAddress) returns (page: Page)
      requires Valid() && InnerFrame(g) && i < |cache.pool[g].node.children|
               && cache.pool[g].node.children[i] == Untagged(a)
      modifies cache.pool
      ensures Wired() && cache.Valid() && cache.S() == Repin(old(cache.S()), g, PINNED)
      ensures page.remote == a && Fetched(cache.logical, page, a)
      ensures a in old(cache.backend.disk) && page == old(cache.backend.disk)[a]
      ensures NothingAtHand(cache.S()) == NothingAtHand(old(cache.S()))
      ensures old(Roomy()) ==> !old(cache.dynamic) && !NothingAtHand(cache.S())
    {
      hide Warm;
      hide TreeInv;
      hide Inv;
      MissPinned(cache.S(), cache.logical, rootSlot, root, height, contents, g, i, a);
      if Roomy() { RoomForPage(a); }
      cache.SetFrame(g, cache.pool[g].(pos := PINNED));
      page := cache.ReadPage(a);
    }

    /** load_child on a miss, up to cache_insert: the parent is pinned, the page read and given a frame. */
    method FetchChild(g: FrameId, i: nat, a: GlobalAddress)
      returns (page: Option<FrameId>, ghost buf: Page, ghost s1: State)
      requires Valid() && InnerFrame(g) && i < |cache.pool[g].node.children|
               && cache.pool[g].node.children[i] == Untagged(a)
      modifies cache.Repr()
      ensures Wired() && SameTree()
      ensures page.None? <==> cache.gaveUp
      ensures page.None? ==> Exhausted(SamplerGaveUp)
      ensures a in old(cache.backend.disk) && buf == old(cache.backend.disk)[a] && buf.remote == a
      ensures page.Some? ==> Obtained(Repin(old(cache.S()), g, PINNED), [], cache.BucketOf(), page.value, s1)
      ensures !NothingAtHand(old(cache.S())) ==> page.Some? && Takes(Repin(old(cache.S()), g, PINNED), s1, page.value)
      ensures old(Roomy()) ==> page.Some? && !old(cache.dynamic)
                               && Takes(Repin(old(cache.S()), g, PINNED), s1, page.value)
      ensures page.Some? ==>
                && CanLoad(s1, cache.logical, g, i, page.value, buf) && g != page.value
                && Calmer(Repin(old(cache.S()), g, PINNED), s1) && s1.frames[g].remote == old(cache.pool[g].remote)
                && |s1.frames| == cache.pool.Length
                && cache.S() == Admit(s1, page.value, buf.(pos := PINNED, parent := InPool(g)))
    {
      hide Warm, TreeInv, Inv, Takes, CanLoad, Barren, Calmer, Exhausted, Holds, NothingAtHand, Valid, Repin;
      hide Admit, Obtained;
      TreeHolds();
      ghost var s, st := cache.S(), cache.logical;
      var node := PinAndRead(g, i, a);
      buf := node;
      page, s1 := cache.CacheInsert(node, InPool(g));
      if page.Some? {
        MissReady(s, s1, st, rootSlot, root, height, contents, g, i, page.value, buf);
      } else {
        NoFrame(cache.S(), None, {}, Tried);
      }
    }

    /** What a miss has done: while the parent was pinned a frame p was obtained, and the page read from the
        backend sits in it, HOT and clean as it was read. */
    ghost predicate Missed(s: State, s': State, g: FrameId, i: nat, p: FrameId, disk: map<GlobalAddress, Page>,
                           a: GlobalAddress)
    {
      a in disk && exists s1 :: MissTo(s, s1, s', g, i, p, disk[a])
                                && Obtained(Repin(s, g, PINNED), [], cache.BucketOf(), p, s1)
    }

    /** The miss path of load_child. With a frame at hand it takes that and never halts. */
    method LoadMissing(g: FrameId, i: nat, a: GlobalAddress) returns (r: Outcome<FrameId>)
      requires Valid() && InnerFrame(g) && i < |cache.pool[g].node.children|
               && cache.pool[g].node.children[i] == Untagged(a)
      modifies Repr()
      ensures Wired() && SameTree()
      ensures r.Done? ==>
                && Valid() && InnerFrame(g) && cache.pool[g].remote == old(cache.pool[g].remote)
                && i < |cache.pool[g].node.children| && cache.pool[g].node.children[i] == Tagged(r.value)
                && InTree(cache.S(), r.value)
                && var ga := cache.pool[g].remote;
                   ga in cache.logical && cache.logical[ga].Inner? && i < |cache.logical[ga].children|
                   && cache.pool[r.value].remote == cache.logical[ga].children[i]
      ensures r.Halted? ==> r.why == SamplerGaveUp && Exhausted(r.why) && NothingAtHand(old(cache.S()))
      ensures r.Done? ==> Missed(old(cache.S()), cache.S(), g, i, r.value, old(cache.backend.disk), a)
                          && OnlyCame(old(cache.S()), cache.S(), a)
      ensures !NothingAtHand(old(cache.S())) ==> OneMiss(old(cache.S()), cache.S(), a)
      ensures old(Roomy()) ==> r.Done? && Roomy()
    {
      hide Warm, Wired, Repin, Exhausted, Takes, Calmer, OnlyCame, Obtained;
      ghost var s := cache.S();
      var prevState := cache.pool[g].pos;
      var page, buf, s1 := FetchChild(g, i, a);
      if page.None? {
        return Halted(SamplerGaveUp);
      }
      SwizzledInIs(s1, g, i, page.value, buf);
      SwizzleIn(g, i, page.value, prevState);
      MissDone(s, s1, cache.logical, rootSlot, root, height, contents, g, i, page.value, buf);
      MissMade(s, s1, cache.logical, rootSlot, root, height, contents, g, i, page.value, buf);
      if old(Roomy()) { MissIsWarm(s, s1, g, i, page.value, buf); }
      return Done(page.value);
    }

    // --- Descending ---

    /** Frame f is resident and responsible for k. */
    ghost predicate Responsible(f: FrameId, k: Key)
      reads Repr()
    {
      && InTree(cache.S(), f) && cache.pool[f].remote in cache.logical && cache.logical[cache.pool[f].remote].Covers(k)
    }

    /** The root is resident and responsible for every key. */
    lemma RootResponsible(k: Key)
      requires Valid()
      ensures rootSlot.Tagged? && Responsible(rootSlot.frame, k)
    {
    }

    /** A frame and its logical page agree on everything but the children. */
    lemma FrameSays(f: FrameId)
      requires Valid() && InTree(cache.S(), f)
      ensures cache.pool[f].remote in cache.logical
      ensures var n, n' := cache.pool[f].node, cache.logical[cache.pool[f].remote];
              && NodeOk(n) && NodeOk(n') && n.Leaf? == n'.Leaf? && n.Level() == n'.Level() && n.lo == n'.lo
                 && n.hi == n'.hi
              && n.Full() == n'.Full()
              && (n.Leaf? ==> n'.entries == n.entries)
              && (n.Inner? ==> n'.keys == n.keys && |n'.children| == |n.children| == |n.keys| + 1)
    {
      assert FrameSound(cache.S(), f) && Mirrors(cache.S(), cache.logical, f);
      assert NodeOk(cache.logical[cache.pool[f].remote]);
    }

    /** A child that is not swizzled is a page on the way to k that is not in the pool. */
    lemma ChildMissed(f: FrameId, k: Key)
      requires Valid() && InnerFrame(f) && Responsible(f, k)
      ensures var i := LowerBound(cache.pool[f].node.keys, k);
              && i < |cache.pool[f].node.children|
              && (cache.pool[f].node.children[i].Untagged? ==>
                    MissedAt(cache.S(), cache.logical, k, cache.pool[f].node.children[i].addr))
    {
      FrameSays(f);
      var i, a := LowerBound(cache.pool[f].node.keys, k), cache.pool[f].remote;
      DescendStep(cache.logical, root, height, a, k);
      if cache.pool[f].node.children[i].Untagged? {
        UnswizzledIsNotResident(cache.S(), cache.logical, root, height, f, i);
        SlotOfFrame(cache.S(), cache.logical, root, height, {}, f, i);
        assert MissedAt(cache.S(), cache.logical, k, cache.pool[f].node.children[i].addr);
      }
    }

    /** One turn of the search loop: the child responsible for k is loaded. */
    method StepDown(f: FrameId, k: Key) returns (r: Outcome<FrameId>)
      requires Valid() && InnerFrame(f) && Responsible(f, k)
      modifies Repr()
      ensures Wired() && SameTree()
      ensures r.Done? ==> Valid() && Responsible(r.value, k)
                          && cache.pool[r.value].node.Level() + 1 == old(cache.pool[f].node.Level())
      ensures r.Done? ==>
                && InnerFrame(f) && cache.pool[f].remote == old(cache.pool[f].remote)
                && var i := LowerBound(cache.pool[f].node.keys, k);
                   i < |cache.pool[f].node.children| && cache.pool[f].node.children[i] == Tagged(r.value)
      ensures r.Done? ==> Onward(old(cache.S()), cache.logical, k, cache.S())
      ensures r.Halted? ==> r.why == SamplerGaveUp && Exhausted(r.why) && !Served(old(cache.S()), cache.logical, k)
      ensures old(Roomy()) ==> r.Done? && Roomy()
    {
      hide Warm, Onward, OneMiss, OnlyCame, Served, Exhausted, NothingAtHand, Missed, MissedAt, Wired;
      FrameSays(f);
      ChildMissed(f, k);
      ghost var a := cache.pool[f].remote;
      DescendStep(cache.logical, root, height, a, k);
      var idx := LowerBound(cache.pool[f].node.keys, k);
      ghost var slot, s := cache.pool[f].node.children[idx], cache.S();
      if slot.Untagged? && Served(s, cache.logical, k) { MissServed(s, cache.logical, k, slot.addr); }
      r := LoadChild(f, idx);
      if r.Done? {
        if slot.Untagged? {
          OnwardByOne(s, cache.logical, k, slot.addr, cache.S());
        } else {
          OnwardItself(s, cache.logical, k);
        }
        FrameSays(f);
        FrameSays(r.value);
      }
    }

    /** The search loop of lookup, update, remove and range_scan. */
    method FindLeaf(k: Key) returns (r: Outcome<FrameId>)
      requires Valid()
      modifies Repr()
      ensures Wired() && SameTree()
      ensures r.Done? ==> Valid() && Responsible(r.value, k) && cache.pool[r.value].node.Leaf?
      ensures r.Done? ==> Onward(old(cache.S()), cache.logical, k, cache.S())
      ensures r.Halted? ==> r.why == SamplerGaveUp && Exhausted(r.why) && !Served(old(cache.S()), cache.logical, k)
      ensures old(Roomy()) ==> r.Done? && Roomy()
    {
      hide Warm;
      RootResponsible(k);
      var cur := rootSlot.frame;
      while cache.pool[cur].node.Inner?
        invariant Valid() && SameTree() && Responsible(cur, k) && (old(Roomy()) ==> Roomy())
        invariant Onward(old(cache.S()), cache.logical, k, cache.S())
        decreases cache.pool[cur].node.Level()
      {
        ghost var s := cache.S();
        cur :- StepDown(cur, k);
        OnwardThen(old(cache.S()), s, cache.S(), cache.logical, k);
      }
      return Done(cur);
    }

    /** lookup answers from the map; when every page on the way to k is in the pool it does so without
        changing anything there. */
    method Lookup(k: Key) returns (r: Outcome<Option<Value>>)
      requires Valid()
      modifies Repr()
      ensures SameTree()
      ensures r.Done? ==> Valid() && r.value == if k in contents then Some(contents[k]) else None
      ensures r.Halted? ==> r.why == SamplerGaveUp && Exhausted(r.why)
      ensures Served(old(cache.S()), cache.logical, k) ==> r.Done?
      ensures Misses(old(cache.S()), cache.logical, k) || (r.Done? && cache.S() == old(cache.S()))
      ensures old(Roomy()) ==> r.Done? && Roomy()
    {
      hide Warm;
      var f :- FindLeaf(k);
      FrameSays(f);
      LeafAnswers(cache.logical, root, height, contents, cache.pool[f].remote, k);
      return Done(LeafFind(cache.pool[f].node.entries, k));
    }

    // --- Changing a leaf ---

    /** A resident leaf gets other entries and is marked dirty. */
    method StoreEntries(f: FrameId, es: seq<Entry>, ghost k: Key, ghost m: map<Key, Value>)
      requires Valid() && Responsible(f, k) && cache.pool[f].node.Leaf? && NodeOk(cache.pool[f].node.(entries := es))
      requires var a := cache.pool[f].remote;
               a in cache.logical && cache.logical[a].Leaf?
               && TreeOk(WithLeaf(cache.logical, a, es), root, height) && Holds(WithLeaf(cache.logical, a, es), m)
      modifies Repr()
      ensures Valid() && contents == m && SameCounts()
      ensures LeafWrite(old(cache.S()), old(cache.logical), k, cache.S())
      ensures OnlyLeafOf(old(cache.logical), cache.logical, k)
      ensures old(Roomy()) ==> Roomy()
    {
      hide TreeInv;
      hide Warm;
      hide NodeOk;
      ghost var s, st, a := cache.S(), cache.logical, cache.pool[f].remote;
      WriteEntries(f, es, WithLeaf(st, a, es), m);
      LeafWritten(s, st, f, es, rootSlot, root, height, old(contents), m);
      assert LeafWriteAt(s, st, k, cache.S(), f, es);
      if old(Roomy()) { AsWarm(s, cache.S()); }
    }

    method WriteEntries(f: FrameId, es: seq<Entry>, ghost st: Store, ghost m: map<Key, Value>)
      requires Wired() && f < cache.pool.Length && cache.pool[f].node.Leaf?
      modifies this`contents, cache`logical, cache.pool
      ensures Wired() && cache.S() == WriteLeaf(old(cache.S()), f, es) && cache.logical == st && contents == m
    {
      cache.SetFrame(f, cache.pool[f].(node := cache.pool[f].node.(entries := es), dirty := true));
      cache.SetLogical(st);
      contents := m;
    }

    /** update changes the value of a present key and nothing else; it always returns when every page on
        the way to k is in the pool. */
    method Update(k: Key, v: Value) returns (r: Outcome<bool>)
      requires Valid()
      modifies Repr()
      ensures r.Done? ==> Valid() && r.value == (k in old(contents))
      ensures r.Done? ==> contents == if r.value then old(contents)[k := v] else old(contents)
      ensures r.Halted? ==> r.why == SamplerGaveUp && Exhausted(r.why) && contents == old(contents)
      ensures SameCounts() && OnlyLeafOf(old(cache.logical), cache.logical, k)
      ensures Served(old(cache.S()), old(cache.logical), k) ==> r.Done?
      ensures Misses(old(cache.S()), old(cache.logical), k) || r.Done?
      ensures || Misses(old(cache.S()), old(cache.logical), k)
              || if k in old(contents) then LeafWrite(old(cache.S()), old(cache.logical), k, cache.S())
                 else cache.S() == old(cache.S())
      ensures old(Roomy()) ==> r.Done? && Roomy()
    {
      hide Warm, LeafWrite, OnlyLeafOf, Exhausted, Inv, RootIs;
      SameLeaves(cache.logical, k);
      var f :- FindLeaf(k);
      FrameSays(f);
      LeafAnswers(cache.logical, root, height, contents, cache.pool[f].remote, k);
      UpdateAtLeaf(cache.logical, root, height, contents, cache.pool[f].remote, k, v);
      var es := cache.pool[f].node.entries;
      if LeafFind(es, k).None? {
        return Done(false);
      }
      StoreLeafOk(cache.logical, root, height, cache.pool[f].remote, LeafUpdate(es, k, v), cache.pool[f].node);
      StoreEntries(f, LeafUpdate(es, k, v), k, contents[k := v]);
      return Done(true);
    }

    /** remove takes a present key out and changes nothing else. */
    method Remove(k: Key) returns (r: Outcome<bool>)
      requires Valid()
      modifies Repr()
      ensures r.Done? ==> Valid() && r.value == (k in old(contents)) && contents == old(contents) - {k}
      ensures r.Halted? ==> r.why == SamplerGaveUp && Exhausted(r.why) && contents == old(contents)
      ensures SameCounts() && OnlyLeafOf(old(cache.logical), cache.logical, k)
      ensures Served(old(cache.S()), old(cache.logical), k) ==> r.Done?
      ensures Misses(old(cache.S()), old(cache.logical), k) || r.Done?
      ensures || Misses(old(cache.S()), old(cache.logical), k)
              || if k in old(contents) then LeafWrite(old(cache.S()), old(cache.logical), k, cache.S())
                 else cache.S() == old(cache.S())
      ensures old(Roomy()) ==> r.Done? && Roomy()
    {
      hide Warm, LeafWrite, OnlyLeafOf, Exhausted, Inv, RootIs;
      SameLeaves(cache.logical, k);
      var f :- FindLeaf(k);
      FrameSays(f);
      LeafAnswers(cache.logical, root, height, contents, cache.pool[f].remote, k);
      RemoveAtLeaf(cache.logical, root, height, contents, cache.pool[f].remote, k);
      var es := cache.pool[f].node.entries;
      if LeafFind(es, k).None? {
        assert contents - {k} == contents;
        return Done(false);
      }
      StoreLeafOk(cache.logical, root, height, cache.pool[f].remote, LeafRemove(es, k), cache.pool[f].node);
      StoreEntries(f, LeafRemove(es, k), k, contents - {k});
      return Done(true);
    }

    // --- Splitting ---

    /** backend_->alloc for a new tree page. */
    method ReservePage() returns (r: Outcome<GlobalAddress>)
      requires Valid()
      modifies cache.backend
      ensures Wired() && leafNum == old(leafNum) && innerNum == old(innerNum)
      ensures cache.backend.curOffset == old(cache.backend.curOffset) + (if r.Done? then PAGE_SIZE else 0)
      ensures r.Done? ==> Valid() && r.value !in cache.logical && cache.S() == Reserve(old(cache.S()), r.value)
                          && Reserved(cache.S(), r.value)
      ensures r.Halted? ==> r.why == BackendFull && Exhausted(r.why) && NoRoom(1)
      ensures old(Roomy()) ==> if r.Done? then Roomy() else r.why == BackendFull
    {
      hide Warm;
      hide Intact;
      ghost var s := cache.S();
      var b := cache.AllocPage();
      if b == NULL {
        SoundIsIntact();
        return Halted(BackendFull);
      }
      ReserveKeeps(s, cache.logical, b);
      RootIsStill(s, cache.S(), rootSlot, root);
      if old(Roomy()) { AsWarm(s, cache.S()); }
      return Done(b);
    }

    /** A leaf split under its parent, up to the divided slot; b is the sibling's address. */
    method HalveLeaf(g: FrameId, f: FrameId, b: GlobalAddress, ghost st: Store)
      requires Wired() && f < cache.pool.Length && g < cache.pool.Length && f != g && b in cache.backend.disk
      requires NodeOk(cache.pool[f].node) && cache.pool[f].node.Full() && cache.pool[f].node.Leaf?
      requires cache.pool[g].node.Inner? && |cache.pool[g].node.children| == |cache.pool[g].node.keys| + 1
      modifies this`leafNum, cache`logical, cache.pool, cache.backend`disk, cache.backend.store
      ensures Wired() && cache.S() == SplitLeafUnder(old(cache.S()), f, g, b)
      ensures cache.logical == st && leafNum == old(leafNum) + 1
    {
      var page := cache.pool[f];
      leafNum := leafNum + 1;
      cache.SetFrame(f, Cut(page));
      cache.WritePage(b, Sibling(page, b, NoParent, REMOTE));
      cache.SetFrame(g, Hang(cache.pool[g], Split(page.node).sep, Untagged(b)));
      cache.SetLogical(st);
    }

    /** What a split of child i of frame g has done once it returns. */
    twostate predicate SplitDone(g: FrameId, i: nat, b: GlobalAddress)
      reads Repr()
    {
      && Valid() && InnerFrame(g) && g < cache.pool.Length && cache.pool[g].remote == old(cache.pool[g].remote)
      && root == old(root) && height == old(height) && contents == old(contents)
      && CanSplit(old(cache.logical), root, height, cache.pool[g].remote, i, b)
      && cache.logical == SplitUnder(old(cache.logical), cache.pool[g].remote, i, b)
    }

    /** split_child for a leaf, before its sibling is loaded. */
    method HalveLeafChild(g: FrameId, i: nat, f: FrameId, b: GlobalAddress)
      requires Valid() && FullChild(cache.S(), f, g, i) && cache.pool[f].node.Leaf?
      requires b !in cache.logical && b in cache.backend.disk
      modifies this`leafNum, cache`logical, cache.pool, cache.backend`disk, cache.backend.store
      ensures Valid() && InnerFrame(g) && cache.pool[g].remote == old(cache.pool[g].remote)
      ensures CanSplit(old(cache.logical), root, height, cache.pool[g].remote, i, b)
      ensures cache.logical == SplitUnder(old(cache.logical), cache.pool[g].remote, i, b)
              && i + 1 < |cache.pool[g].node.children|
      ensures leafNum == old(leafNum) + 1 && innerNum == old(innerNum)
      ensures old(Roomy()) ==> Roomy()
    {
      hide Warm;
      hide TreeInv;
      hide SplitLeafUnder;
      hide Wired;
      ghost var s, st, ga := cache.S(), cache.logical, cache.pool[g].remote;
      FullChildShape(s, st, rootSlot, root, height, contents, f, g, i, b);
      ghost var st' := SplitUnder(st, ga, i, b);
      HalveLeaf(g, f, b, st');
      assert !cache.gaveUp && root == old(root) && height == old(height) && contents == old(contents)
             && rootSlot == old(rootSlot);
      LeafSplitWhole(s, cache.S(), st, st', rootSlot, root, height, contents, f, g, i, b);
      if old(Roomy()) { LeafSplitIsWarm(s, f, g, b); }
    }

    /** split_child for a leaf. */
    method SplitLeafChild(g: FrameId, i: nat, f: FrameId) returns (r: Outcome<()>, ghost b: GlobalAddress)
      requires Valid() && FullChild(cache.S(), f, g, i) && cache.pool[f].node.Leaf?
      modifies Repr()
      ensures r.Done? ==> SplitDone(g, i, b) && Spare() == old(Spare()) && innerNum >= old(innerNum)
      ensures r.Halted? ==> Exhausted(r.why) && contents == old(contents) && (r.why == BackendFull ==> old(NoRoom(1)))
                            && r.why != SplitHazard
      ensures old(Roomy()) ==> if r.Done? then Roomy() else r.why == BackendFull
    {
      hide Warm, Valid, Exhausted;
      var reserved := ReservePage();
      if reserved.Halted? {
        return Halted(reserved.why), NULL;
      }
      b := reserved.value;
      r := SplitLeafInto(g, i, f, reserved.value);
    }

    /** The rest of that split, with the page b for the sibling. */
    method SplitLeafInto(g: FrameId, i: nat, f: FrameId, b: GlobalAddress) returns (r: Outcome<()>)
      requires Valid() && FullChild(cache.S(), f, g, i) && cache.pool[f].node.Leaf?
      requires b !in cache.logical && Reserved(cache.S(), b)
      modifies Repr()
      ensures r.Done? ==> SplitDone(g, i, b) && Spare() == old(Spare()) - PAGE_SIZE && innerNum == old(innerNum)
      ensures r.Halted? ==> r.why == SamplerGaveUp && Exhausted(r.why) && contents == old(contents)
      ensures old(Roomy()) ==> r.Done? && Roomy()
    {
      hide Warm, Exhausted, Inv, TreeOk, Holds, RootIs, SplitUnder, CanSplit;
      HalveLeafChild(g, i, f, b);
      var c := LoadChild(g, i + 1);
      r := if c.Done? then Done(()) else Halted(c.why);
    }

    /** An inner split, up to the sibling's frame: the page is cut, and a frame is acquired for the
        sibling. s0 is the state with the page still whole once the sampler is done with it, s1 the
        same with the frame in hand. */
    method CutInner(f: FrameId)
      returns (r: Outcome<FrameId>, ghost s0: State, ghost s1: State, ghost loose: set<FrameId>)
      requires Wired() && !cache.gaveUp && AtWindow(cache.S(), cache.logical, f) && Holds(cache.logical, contents)
      modifies cache.Repr()
      ensures Wired() && Untouched() && cache.logical == old(cache.logical)
      ensures r.Halted? ==> r.why != BackendFull && Exhausted(r.why)
      ensures r.Done? ==>
                && !cache.gaveUp && Kept(old(cache.S()), s0, cache.logical, Some(Cutting(f, Moved(old(cache.S()), f))))
                && Takes(s0, s1, r.value) && s1.frames == s0.frames && |s1.frames| == cache.pool.Length
                && AtWindow(s0, cache.logical, f) && ShowsWindow(cache.S(), s1, f, loose)
      ensures !NothingAtHand(old(cache.S())) ==> r.Done? && s0 == old(cache.S())
    {
      hide Exhausted;
      hide Holds;
      hide Inv;
      hide Takes;
      hide Kept;
      hide Shown;
      hide ShowsWindow;
      ghost var s := cache.S();
      ghost var cut := CutPage(f);
      var page, pace;
      page, pace, s0, s1, loose := cache.GetEmptyPage(s, cut, {});
      if page.Some? {
        FrameInWindow(page, s, s0, s1, cut, loose);
        return Done(page.value), s0, s1, loose;
      }
      NoFrame(s0, cut, loose, pace);
      r := Halted(if pace.Tried? then SamplerGaveUp else SplitHazard);
    }

    /** The page is cut; its upper half is in a buffer. */
    method CutPage(f: FrameId) returns (ghost cut: Option<Cutting>)
      requires Wired() && !cache.gaveUp && AtWindow(cache.S(), cache.logical, f)
      modifies cache.pool
      ensures Wired() && cut == Some(Cutting(f, Moved(old(cache.S()), f))) && cache.Shows(old(cache.S()), cut, {})
      ensures NothingAtHand(cache.S()) == NothingAtHand(old(cache.S()))
    {
      cut := Some(Cutting(f, Split(cache.pool[f].node).right.children));
      cache.SetFrame(f, Cut(cache.pool[f]));
      FreedNone(cache.S());
    }

    /** What a frame obtained in the window means for the split. */
    lemma FrameInWindow(page: Option<FrameId>, s: State, s0: State, s1: State, cut: Option<Cutting>,
                        loose: set<FrameId>)
      requires cache.Taken(page, s, s0, s1, cut, loose) && page.Some? && cut.Some?
      ensures var f := cut.value.frame;
              && AtWindow(s0, cache.logical, f) && s1.frames == s0.frames && |s1.frames| == cache.pool.Length
              && ShowsWindow(cache.S(), s1, f, loose)
    {
      assert AtWindow(s0, cache.logical, cut.value.frame);
      assert |cache.S().frames| == |s1.frames|;
      assert Moved(s1, cut.value.frame) == cut.value.moved;
    }

    /** What a failed search for a frame means for the tree. */
    lemma NoFrame(s: State, cut: Option<Cutting>, loose: set<FrameId>, pace: Pace)
      requires Wired() && Holds(cache.logical, contents) && !pace.Cooled?
      requires cache.Stands(s, cut, loose) && cache.dynamic && cache.Starved(s, cut) && cache.Fruitless(pace, s, cut)
      requires pace.Tried? <==> cache.gaveUp
      ensures Exhausted(if pace.Tried? then SamplerGaveUp else SplitHazard)
    {
    }

    /** The sibling of a cut inner page gets frame p, and its swizzled children a new parent. page is
        what the code has read of the page before the cut. */
    method PlaceSibling(f: FrameId, p: FrameId, b: GlobalAddress, page: Page, ghost s1: State,
                        ghost loose: set<FrameId>)
      requires Wired() && Swizzled(s1) && FullInner(s1, f) && p < |s1.frames| && !InTree(s1, p)
      requires SplitsAlike(page, s1, f, b) && ShowsWindow(cache.S(), s1, f, loose)
      modifies cache.pool, cache.pageTable, cache.pageTable.table
      ensures Wired() && Untouched() && cache.gaveUp == old(cache.gaveUp) && cache.logical == old(cache.logical)
      ensures cache.S() == SplitInnerTop(s1, f, p, b)
    {
      SplitInnerTopIs(s1, f, p, b);
      var sib := Sibling(page, b, NoParent, REMOTE);
      FreedAdopted(Window(s1, f), loose, p, sib.(pos := HOT, parent := page.parent), sib.node.children);
      AdmitThenHot(cache.S(), p, sib, page.parent);
      cache.Place(p, sib, page.parent);
      cache.SetFrame(p, cache.pool[p].(pos := HOT));
      cache.UpdateAllParentPtr(p);
    }

    /** split_child for an inner page under super_root_, before the new root. */
    method HalveInnerRoot(b: GlobalAddress) returns (r: Outcome<FrameId>)
      requires Valid() && rootSlot.Tagged? && cache.pool[rootSlot.frame].node.Inner?
               && cache.pool[rootSlot.frame].node.Full()
      requires b !in cache.logical && Reserved(cache.S(), b)
      modifies Repr()
      ensures Wired() && rootSlot == old(rootSlot) && root == old(root) && height == old(height)
              && contents == old(contents)
      ensures leafNum == old(leafNum) && innerNum == old(innerNum) + 1
              && cache.backend.curOffset == old(cache.backend.curOffset)
      ensures r.Done? ==>
                && !cache.gaveUp
                && Rootless(cache.S(), old(cache.logical), root, height, contents, rootSlot.frame, b, Tagged(r.value))
                && cache.logical == HalvedAt(old(cache.logical), root, b)
      ensures r.Halted? ==> r.why != BackendFull && Exhausted(r.why)
      ensures old(Roomy()) ==> r.Done? && Roomy()
    {
      hide TreeInv;
      hide Rootless;
      hide Kept;
      hide AtWindow;
      hide Warm;
      hide Reserved;
      hide Takes;
      TreeHolds();
      ghost var s, st := cache.S(), cache.logical;
      var f := rootSlot.frame;
      RootFrame(s, st, rootSlot, root, height, contents);
      RootSplitFacts(s, st, rootSlot, root, height, contents);
      RootAtWindow(s, st, rootSlot, root, height, contents);
      if Roomy() { RoomForNewPage(st, b); }
      var page := cache.pool[f];
      innerNum := innerNum + 1;
      var taken, s0, s1, loose := CutInner(f);
      if taken.Halted? {
        return Halted(taken.why);
      }
      PlaceRootSibling(f, taken.value, b, page, s, s0, s1, loose);
      return Done(taken.value);
    }

    /** The rest of that split, with frame p in hand for the sibling. s is the state before the cut. */
    method PlaceRootSibling(f: FrameId, p: FrameId, b: GlobalAddress, page: Page, ghost s: State, ghost s0: State,
                            ghost s1: State, ghost loose: set<FrameId>)
      requires Wired() && TreeInv(s, cache.logical, rootSlot, root, height, contents) && b !in cache.logical
               && Reserved(s, b)
      requires rootSlot == Tagged(f) && f < |s.frames| && s.frames[f] == page && page.node.Inner? && page.node.Full()
               && NodeOk(page.node)
      requires Kept(s, s0, cache.logical, Some(Cutting(f, Moved(s, f)))) && Takes(s0, s1, p)
      requires s1.frames == s0.frames && |s1.frames| == cache.pool.Length && AtWindow(s0, cache.logical, f)
               && ShowsWindow(cache.S(), s1, f, loose)
      requires root in cache.logical && NodeOk(cache.logical[root]) && cache.logical[root].Full()
      modifies cache`logical, cache.pool, cache.pageTable, cache.pageTable.table
      ensures Wired() && Untouched() && cache.gaveUp == old(cache.gaveUp)
      ensures Rootless(cache.S(), old(cache.logical), root, height, contents, f, b, Tagged(p))
      ensures cache.logical == HalvedAt(old(cache.logical), root, b)
      ensures Warm(s) && !s.dynamic && s0 == s ==> Warm(cache.S())
    {
      hide TreeInv;
      hide Rootless;
      hide Kept;
      hide AtWindow;
      hide Warm;
      hide Reserved;
      hide Takes;
      hide SplitInnerTop;
      hide SplitsAlike;
      hide ShowsWindow;
      hide HalvedAt;
      ghost var st := cache.logical;
      InnerHalved(s, s0, s1, st, rootSlot, root, height, contents, p, b, Some(Cutting(f, Moved(s, f))));
      if Warm(s) && !s.dynamic && s0 == s { SplitTopIsWarm(s, s1, f, p, b); }
      PlaceHalf(f, p, b, page, s1, loose, HalvedAt(st, root, b));
    }

    /** ... and the logical pages follow. */
    method PlaceHalf(f: FrameId, p: FrameId, b: GlobalAddress, page: Page, ghost s1: State, ghost loose: set<FrameId>,
                     ghost st: Store)
      requires Wired() && Swizzled(s1) && FullInner(s1, f) && p < |s1.frames| && !InTree(s1, p)
      requires SplitsAlike(page, s1, f, b) && ShowsWindow(cache.S(), s1, f, loose)
      modifies cache`logical, cache.pool, cache.pageTable, cache.pageTable.table
      ensures Wired() && Untouched() && cache.gaveUp == old(cache.gaveUp) && cache.logical == st
      ensures cache.S() == SplitInnerTop(s1, f, p, b)
    {
      PlaceSibling(f, p, b, page, s1, loose);
      cache.SetLogical(st);
    }

    /** split_child for an inner page under another, once its sibling's address is reserved. */
    method HalveInnerChild(g: FrameId, i: nat, f: FrameId, b: GlobalAddress) returns (r: Outcome<()>)
      requires Valid() && FullChild(cache.S(), f, g, i) && cache.pool[f].node.Inner?
      requires b !in cache.logical && Reserved(cache.S(), b)
      modifies Repr()
      ensures r.Done? ==> SplitDone(g, i, b) && leafNum == old(leafNum) && innerNum == old(innerNum) + 1
      ensures cache.backend.curOffset == old(cache.backend.curOffset)
      ensures r.Halted? ==> r.why != BackendFull && Exhausted(r.why) && contents == old(contents)
      ensures old(Roomy()) ==> r.Done? && Roomy()
    {
      hide TreeInv;
      hide Kept;
      hide AtWindow;
      hide Warm;
      hide Reserved;
      hide Takes;
      TreeHolds();
      ghost var s, st := cache.S(), cache.logical;
      InnerChildAtWindow(s, st, rootSlot, root, height, contents, f, g, i);
      if Roomy() { RoomForNewPage(st, b); }
      var page := cache.pool[f];
      innerNum := innerNum + 1;
      var taken, s0, s1, loose := CutInner(f);
      if taken.Halted? {
        return Halted(taken.why);
      }
      HangInner(g, i, f, taken.value, b, page, s, s0, s1, loose);
      return Done(());
    }

    /** The rest of that split, with frame p in hand for the sibling. s is the state before the cut. */
    method HangInner(g: FrameId, i: nat, f: FrameId, p: FrameId, b: GlobalAddress, page: Page,
                     ghost s: State, ghost s0: State, ghost s1: State, ghost loose: set<FrameId>)
      requires Wired() && !cache.gaveUp && leafNum == |Leaves(cache.logical)| && innerNum == |Inners(cache.logical)| + 1
      requires TreeInv(s, cache.logical, rootSlot, root, height, contents) && b !in cache.logical && Reserved(s, b)
      requires FullChild(s, f, g, i) && s.frames[f] == page && page.node.Inner? && NodeOk(page.node)
      requires Kept(s, s0, cache.logical, Some(Cutting(f, Moved(s, f)))) && Takes(s0, s1, p)
      requires s1.frames == s0.frames && |s1.frames| == cache.pool.Length && AtWindow(s0, cache.logical, f)
               && ShowsWindow(cache.S(), s1, f, loose)
      modifies cache`logical, cache.pool, cache.pageTable, cache.pageTable.table
      ensures Valid() && Untouched() && InnerFrame(g) && cache.pool[g].remote == s.frames[g].remote
      ensures CanSplit(old(cache.logical), root, height, s.frames[g].remote, i, b)
      ensures cache.logical == SplitUnder(old(cache.logical), s.frames[g].remote, i, b)
      ensures Warm(s) && !s.dynamic && s0 == s ==> Warm(cache.S())
    {
      hide TreeInv;
      hide Kept;
      hide AtWindow;
      hide Warm;
      hide Reserved;
      hide Takes;
      hide SplitsAlike;
      hide CanHang;
      ghost var st := cache.logical;
      InnerSplitDone(s, s0, s1, st, rootSlot, root, height, contents, f, g, i, p, b, Some(Cutting(f, Moved(s, f))));
      HangSibling(g, f, p, b, page, s1, loose, SplitUnder(st, s.frames[g].remote, i, b));
      if Warm(s) && !s.dynamic && s0 == s { SplitUnderIsWarm(s, s1, f, g, p, b); }
    }

    method HangSibling(g: FrameId, f: FrameId, p: FrameId, b: GlobalAddress, page: Page, ghost s1: State,
                       ghost loose: set<FrameId>, ghost st: Store)
      requires Wired() && CanHang(s1, f, g, p, b) && SplitsAlike(page, s1, f, b) && ShowsWindow(cache.S(), s1, f, loose)
      modifies cache`logical, cache.pool, cache.pageTable, cache.pageTable.table
      ensures Wired() && Untouched() && cache.gaveUp == old(cache.gaveUp) && cache.logical == st
      ensures cache.S() == SplitInnerUnder(s1, f, g, p, b)
    {
      PlaceSibling(f, p, b, page, s1, loose);
      cache.SetFrame(g, Hang(cache.pool[g], Split(page.node).sep, Tagged(p)));
      cache.SetLogical(st);
    }

    /** split_child for an inner page. */
    method SplitInnerChild(g: FrameId, i: nat, f: FrameId) returns (r: Outcome<()>, ghost b: GlobalAddress)
      requires Valid() && FullChild(cache.S(), f, g, i) && cache.pool[f].node.Inner?
      modifies Repr()
      ensures r.Done? ==> SplitDone(g, i, b) && Spare() == old(Spare()) && innerNum >= old(innerNum)
      ensures r.Halted? ==> Exhausted(r.why) && contents == old(contents) && (r.why == BackendFull ==> old(NoRoom(1)))
      ensures old(Roomy()) ==> if r.Done? then Roomy() else r.why == BackendFull
    {
      hide Warm, Valid, Exhausted;
      var reserved := ReservePage();
      if reserved.Halted? {
        return Halted(reserved.why), NULL;
      }
      b := reserved.value;
      r := HalveInnerChild(g, i, f, reserved.value);
    }

    /** A root leaf is cut, its upper half goes to the backend page b. */
    method HalveTopLeaf(f: FrameId, b: GlobalAddress, ghost st: Store)
      requires Wired() && f < cache.pool.Length && b in cache.backend.disk
      requires NodeOk(cache.pool[f].node) && cache.pool[f].node.Full() && cache.pool[f].node.Leaf?
      modifies this`leafNum, cache`logical, cache.pool, cache.backend`disk, cache.backend.store
      ensures Wired() && cache.S() == SplitLeafTop(old(cache.S()), f, b)
      ensures cache.logical == st && leafNum == old(leafNum) + 1
    {
      var page := cache.pool[f];
      cache.SetFrame(f, Cut(page));
      cache.WritePage(b, Sibling(page, b, NoParent, REMOTE));
      leafNum := leafNum + 1;
      cache.SetLogical(st);
    }

    /** split_child for a root leaf, before the new root. */
    method HalveLeafRoot(b: GlobalAddress)
      requires Valid() && rootSlot.Tagged? && cache.pool[rootSlot.frame].node.Leaf?
               && cache.pool[rootSlot.frame].node.Full()
      requires b !in cache.logical && b in cache.backend.disk
      modifies this`leafNum, cache`logical, cache.pool, cache.backend`disk, cache.backend.store
      ensures Wired() && !cache.gaveUp && rootSlot == old(rootSlot) && root == old(root) && height == old(height)
              && contents == old(contents)
      ensures leafNum == old(leafNum) + 1 && innerNum == old(innerNum)
      ensures Rootless(cache.S(), old(cache.logical), root, height, contents, rootSlot.frame, b, Untagged(b))
              && cache.logical == HalvedAt(old(cache.logical), root, b)
      ensures old(Roomy()) ==> Roomy()
    {
      hide Warm;
      hide TreeInv;
      hide Rootless;
      hide Wired;
      ghost var s, st := cache.S(), cache.logical;
      var f := rootSlot.frame;
      RootFrame(s, st, rootSlot, root, height, contents);
      RootSplitFacts(s, st, rootSlot, root, height, contents);
      LeafHalved(s, st, rootSlot, root, height, contents, b);
      HalveTopLeaf(f, b, HalvedAt(st, root, b));
      if old(Roomy()) { AsWarm(s, cache.S()); }
    }

    /** The page of a new root, none of the tree yet. */
    method ReserveRoot(f: FrameId, right: Slot, ghost st: Store, ghost b: GlobalAddress) returns (addr: GlobalAddress)
      requires Wired() && !cache.gaveUp && Rootless(cache.S(), st, root, height, contents, f, b, right)
               && cache.logical == HalvedAt(st, root, b)
      modifies cache.backend
      ensures Wired()
      ensures cache.backend.curOffset == old(cache.backend.curOffset) + (if addr == NULL then 0 else PAGE_SIZE)
      ensures if addr == NULL then Exhausted(BackendFull) && NoRoom(1)
              else Rootless(cache.S(), st, root, height, contents, f, b, right) && addr !in cache.logical
                   && Reserved(cache.S(), addr)
      ensures old(Roomy()) ==> Roomy()
    {
      hide Warm;
      hide Rootless;
      hide HalvedAt;
      ghost var s := cache.S();
      addr := cache.AllocPage();
      if addr == NULL {
        RootlessIsSound(s, st, root, height, contents, f, b, right);
        SoundIsIntact();
      } else {
        RootlessReserve(s, st, root, height, contents, f, b, right, addr);
        if old(Roomy()) { AsWarm(s, cache.S()); }
      }
    }

    /** make_new_root: a page above the two halves of the old root. st is the store before the split. */
    method MakeNewRoot(sep: Key, f: FrameId, right: Slot, level: nat, ghost st: Store, ghost b: GlobalAddress)
      returns (r: Outcome<()>)
      requires Wired() && !cache.gaveUp && Rootless(cache.S(), st, root, height, contents, f, b, right)
               && cache.logical == HalvedAt(st, root, b)
      requires level == st[root].Level() + 1 && sep == Split(st[root]).sep
      modifies Repr()
      ensures Wired() && contents == old(contents) && leafNum == old(leafNum)
      ensures r.Done? ==>
                && !cache.gaveUp && innerNum == old(innerNum) + 1 && height == level + 1 && root !in old(cache.logical)
                && cache.logical == GrowRoot(st, old(root), b, root)
                && TreeInv(cache.S(), cache.logical, rootSlot, root, old(height) + 1, contents)
                && Spare() == old(Spare())
      ensures r.Halted? ==> Exhausted(r.why) && (r.why == BackendFull ==> old(NoRoom(1))) && r.why != SplitHazard
      ensures old(Roomy()) ==> if r.Done? then Roomy() else r.why == BackendFull
    {
      hide Warm;
      hide Inv;
      hide NodeOk;
      hide Split;
      hide TreeInv;
      hide Rootless;
      hide GrowRoot;
      hide Exhausted;
      hide HalvedAt;
      hide Reserved;
      hide Roomy;
      var addr := ReserveRoot(f, right, st, b);
      if addr == NULL {
        return Halted(BackendFull);
      }
      r := AdmitRoot(addr, sep, f, right, level, st, b);
    }

    /** make_new_root once the page of the new root is reserved. */
    method AdmitRoot(addr: GlobalAddress, sep: Key, f: FrameId, right: Slot, level: nat, ghost st: Store,
                     ghost b: GlobalAddress)
      returns (r: Outcome<()>)
      requires Wired() && !cache.gaveUp && Rootless(cache.S(), st, root, height, contents, f, b, right)
               && cache.logical == HalvedAt(st, root, b)
      requires level == st[root].Level() + 1 && sep == Split(st[root]).sep
      requires addr !in cache.logical && Reserved(cache.S(), addr)
      modifies Repr()
      ensures Wired() && contents == old(contents) && leafNum == old(leafNum)
      ensures r.Done? ==>
                && !cache.gaveUp && innerNum == old(innerNum) + 1 && height == level + 1 && root == addr
                && cache.logical == GrowRoot(st, old(root), b, root)
                && TreeInv(cache.S(), cache.logical, rootSlot, root, old(height) + 1, contents)
      ensures cache.backend.curOffset == old(cache.backend.curOffset)
      ensures r.Halted? ==> r.why == SamplerGaveUp && Exhausted(r.why)
      ensures old(Roomy()) ==> if r.Done? then Roomy() else r.why == BackendFull
    {
      hide TreeInv;
      hide Warm;
      hide Exhausted;
      ghost var st' := GrowRoot(st, root, b, addr);
      var page, s1, s' := AcquireRoot(addr, sep, f, right, level, st, b);
      if page.None? {
        return Halted(SamplerGaveUp);
      }
      InstallRoot(page.value, addr, level, sep, f, right, s1, st');
      assert cache.S() == s';
      return Done(());
    }

    /** cache_insert for the new root; its frame is obtained in state s1, and s' is the state to come. */
    method AcquireRoot(addr: GlobalAddress, sep: Key, f: FrameId, right: Slot, level: nat, ghost st: Store,
                       ghost b: GlobalAddress)
      returns (page: Option<FrameId>, ghost s1: State, ghost s': State)
      requires Wired() && !cache.gaveUp && Rootless(cache.S(), st, root, height, contents, f, b, right)
               && cache.logical == HalvedAt(st, root, b)
      requires level == st[root].Level() + 1 && sep == Split(st[root]).sep
      requires addr !in cache.logical && Reserved(cache.S(), addr)
      modifies cache.Repr()
      ensures Wired() && Untouched()
      ensures page.None? <==> cache.gaveUp
      ensures page.None? ==> Exhausted(SamplerGaveUp)
      ensures page.Some? ==>
                && RootReady(s1, page.value, level, sep, f, right)
                && cache.S() == Admit(s1, page.value,
                                      RootPage(addr, level, sep, f, right).(pos := PINNED, parent := SuperRoot))
                && s' == NewRoot(s1, page.value, addr, level, sep, f, right)
                && TreeInv(s', GrowRoot(st, old(root), b, addr), Tagged(page.value), addr, old(height) + 1,
                           old(contents))
                && (old(Roomy()) ==> Warm(s'))
      ensures old(Roomy()) ==> page.Some?
    {
      hide Warm;
      hide TreeInv;
      hide GrowRoot;
      hide RootReady;
      hide NewRoot;
      hide Reserved;
      hide HalvedAt;
      hide NodeOk;
      hide Rootless;
      hide Takes;
      hide Calmer;
      hide Barren;
      hide Inv;
      hide Exhausted;
      hide Holds;
      ghost var s := cache.S();
      RootlessIsSound(s, st, root, height, contents, f, b, right);
      if Roomy() { RoomForNewPage(HalvedAt(st, root, b), addr); }
      page, s1 := cache.CacheInsert(RootPage(addr, level, sep, f, right), SuperRoot);
      assert Untouched();
      if page.Some? {
        s' := NewRoot(s1, page.value, addr, level, sep, f, right);
        NewRootWhole(s, s1, st, root, height, contents, f, b, right, page.value, addr, level, sep);
        if old(Roomy()) { NewRootIsWarm(s, s1, page.value, addr, level, sep, f, right); }
      } else {
        s' := s1;
        NoFrame(cache.S(), None, {}, Tried);
      }
    }

    /** The end of make_new_root: super_root_ and the counters, then Reparent. */
    method InstallRoot(p: FrameId, addr: GlobalAddress, level: nat, sep: Key, f: FrameId, right: Slot, ghost s1: State,
                       ghost st: Store)
      requires Wired() && RootReady(s1, p, level, sep, f, right)
      requires cache.S() == Admit(s1, p, RootPage(addr, level, sep, f, right).(pos := PINNED, parent := SuperRoot))
      modifies this`innerNum, this`root, this`rootSlot, this`height, cache`logical, cache.pool
      ensures Wired() && cache.gaveUp == old(cache.gaveUp) && cache.logical == st
              && cache.S() == NewRoot(s1, p, addr, level, sep, f, right)
      ensures innerNum == old(innerNum) + 1 && root == addr && rootSlot == Tagged(p) && height == level + 1
      ensures leafNum == old(leafNum) && contents == old(contents)
    {
      hide RootReady;
      innerNum := innerNum + 1;
      root := addr;
      rootSlot := Tagged(p);
      Reparent(p, addr, level, sep, f, right, s1, st);
      height := level + 1;
    }

    /** The new root turns HOT and its resident children get it as parent. */
    method Reparent(p: FrameId, addr: GlobalAddress, level: nat, sep: Key, f: FrameId, right: Slot, ghost s1: State,
                    ghost st: Store)
      requires Wired() && RootReady(s1, p, level, sep, f, right)
      requires cache.S() == Admit(s1, p, RootPage(addr, level, sep, f, right).(pos := PINNED, parent := SuperRoot))
      modifies cache`logical, cache.pool
      ensures Wired() && cache.logical == st && cache.S() == NewRoot(s1, p, addr, level, sep, f, right)
    {
      AdmitThenHot(s1, p, RootPage(addr, level, sep, f, right), SuperRoot);
      NewRootIs(s1, p, addr, level, sep, f, right);
      cache.SetFrame(p, cache.pool[p].(pos := HOT));
      cache.SetFrame(f, cache.pool[f].(parent := InPool(p)));
      if right.Tagged? {
        cache.SetFrame(right.frame, cache.pool[right.frame].(parent := InPool(p)));
      }
      cache.SetLogical(st);
    }

    /** split_child under super_root_: the root is halved and a new root grows above it. */
    method SplitRoot(ghost k: Key) returns (r: Outcome<()>)
      requires Valid() && rootSlot.Tagged? && cache.pool[rootSlot.frame].node.Full()
      modifies Repr()
      ensures r.Done? ==> Valid() && contents == old(contents) && height == old(height) + 1
      ensures r.Done? ==> Paid(old(cache.logical), cache.logical, k, old(height), old(height), 1)
      ensures r.Done? ==> rootSlot.Tagged? && !cache.pool[rootSlot.frame].node.Full()
      ensures r.Done? ==> Spare() == old(Spare()) && innerNum > old(innerNum)
      ensures r.Halted? ==> Exhausted(r.why) && contents == old(contents) && (r.why == BackendFull ==> old(NoRoom(2)))
                            && (r.why == SplitHazard ==> old(cache.pool[rootSlot.frame].node.Inner?))
      ensures old(Roomy()) ==> if r.Done? then Roomy() else r.why == BackendFull
    {
      hide Warm;
      hide NodeOk;
      hide Exhausted;
      hide Wired;
      hide Rootless;
      var reserved := ReservePage();
      if reserved.Halted? {
        return Halted(reserved.why);
      }
      r := SplitRootInto(reserved.value, k);
    }

    /** The rest of that split, with the page b for the sibling. */
    method SplitRootInto(b: GlobalAddress, ghost k: Key) returns (r: Outcome<()>)
      requires Valid() && rootSlot.Tagged? && cache.pool[rootSlot.frame].node.Full()
      requires b !in cache.logical && Reserved(cache.S(), b)
      modifies Repr()
      ensures r.Done? ==> Valid() && contents == old(contents) && height == old(height) + 1
      ensures r.Done? ==> Paid(old(cache.logical), cache.logical, k, old(height), old(height), 1)
      ensures r.Done? ==> rootSlot.Tagged? && !cache.pool[rootSlot.frame].node.Full()
      ensures r.Done? ==> Spare() == old(Spare()) - PAGE_SIZE && innerNum > old(innerNum)
      ensures r.Halted? ==> Exhausted(r.why) && contents == old(contents) && (r.why == BackendFull ==> old(NoRoom(1)))
                            && (r.why == SplitHazard ==> old(cache.pool[rootSlot.frame].node.Inner?))
      ensures old(Roomy()) ==> if r.Done? then Roomy() else r.why == BackendFull
    {
      hide Warm, Valid, Exhausted, NodeOk, Rootless, HalvedAt, Leaves, Inners, Paid;
      Counted();
      RootInPool();
      FullRootNow();
      var f := rootSlot.frame;
      ghost var st := cache.logical;
      var page := cache.pool[f];
      var right := HalveRoot(b);
      if right.Halted? {
        return Halted(right.why);
      }
      r := FinishRoot(Split(page.node).sep, f, right.value, page.node.Level() + 1, st, b, k);
    }

    /** split_child under super_root_, up to the new root: the sibling is in page b or in a frame. */
    method HalveRoot(b: GlobalAddress) returns (right: Outcome<Slot>)
      requires Valid() && rootSlot.Tagged? && cache.pool[rootSlot.frame].node.Full()
      requires b !in cache.logical && Reserved(cache.S(), b)
      modifies Repr()
      ensures Wired() && root == old(root) && rootSlot == old(rootSlot) && height == old(height)
              && contents == old(contents) && cache.backend.curOffset == old(cache.backend.curOffset)
      ensures leafNum == old(leafNum) + (if old(cache.pool[rootSlot.frame].node.Leaf?) then 1 else 0)
      ensures innerNum == old(innerNum) + (if old(cache.pool[rootSlot.frame].node.Leaf?) then 0 else 1)
      ensures right.Done? ==>
                && !cache.gaveUp
                && Rootless(cache.S(), old(cache.logical), root, height, contents, rootSlot.frame, b, right.value)
                && cache.logical == HalvedAt(old(cache.logical), root, b)
      ensures right.Halted? ==> right.why != BackendFull && Exhausted(right.why)
      ensures right.Halted? && right.why == SplitHazard ==> old(cache.pool[rootSlot.frame].node.Inner?)
      ensures old(Roomy()) ==> right.Done? && Roomy()
    {
      hide Warm, Valid, Exhausted, Rootless, HalvedAt;
      RootInPool();
      FullRootNow();
      if cache.pool[rootSlot.frame].node.Leaf? {
        HalveLeafRoot(b);
        right := Done(Untagged(b));
      } else {
        var sib := HalveInnerRoot(b);
        right := if sib.Done? then Done(Tagged(sib.value)) else Halted(sib.why);
      }
    }

    /** make_new_root in its place: a sound tree again, one level higher, with room in the root. */
    method FinishRoot(sep: Key, f: FrameId, right: Slot, level: nat, ghost st: Store, ghost b: GlobalAddress,
                      ghost k: Key)
      returns (r: Outcome<()>)
      requires Wired() && !cache.gaveUp && Rootless(cache.S(), st, root, height, contents, f, b, right)
               && cache.logical == HalvedAt(st, root, b)
      requires level == st[root].Level() + 1 && sep == Split(st[root]).sep
      requires leafNum == |Leaves(st)| + (if st[root].Leaf? then 1 else 0)
      requires innerNum == |Inners(st)| + (if st[root].Inner? then 1 else 0)
      modifies Repr()
      ensures r.Done? ==> Valid() && contents == old(contents) && height == old(height) + 1
      ensures r.Done? ==> Paid(st, cache.logical, k, old(height), old(height), 1)
      ensures r.Done? ==> rootSlot.Tagged? && !cache.pool[rootSlot.frame].node.Full()
      ensures r.Done? ==> Spare() == old(Spare()) && innerNum > old(innerNum)
      ensures r.Halted? ==> Exhausted(r.why) && contents == old(contents) && (r.why == BackendFull ==> old(NoRoom(1)))
                            && r.why != SplitHazard
      ensures old(Roomy()) ==> if r.Done? then Roomy() else r.why == BackendFull
    {
      hide Warm;
      hide TreeInv;
      hide Rootless;
      hide Paid;
      ghost var s, oldRoot, h := cache.S(), root, height;
      r := MakeNewRoot(sep, f, right, level, st, b);
      if r.Done? {
        RootFinished(s, cache.S(), st, oldRoot, h, contents, f, b, right, rootSlot, root, k);
      }
    }

    // --- insert and range_scan ---

    /** split_child below super_root_. */
    method SplitChild(g: FrameId, i: nat, f: FrameId) returns (r: Outcome<()>, ghost b: GlobalAddress)
      requires Valid() && FullChild(cache.S(), f, g, i)
      modifies Repr()
      ensures r.Done? ==> SplitDone(g, i, b) && Spare() == old(Spare()) && innerNum >= old(innerNum)
      ensures r.Halted? ==> Exhausted(r.why) && contents == old(contents) && (r.why == BackendFull ==> old(NoRoom(1)))
                            && (r.why == SplitHazard ==> old(cache.pool[f].node.Inner?))
      ensures old(Roomy()) ==> if r.Done? then Roomy() else r.why == BackendFull
    {
      hide Warm;
      if cache.pool[f].node.Leaf? {
        r, b := SplitLeafChild(g, i, f);
      } else {
        r, b := SplitInnerChild(g, i, f);
      }
    }

    /** The full child of slot i is split, and the half responsible for k is loaded: it has room. */
    method SplitThenPick(g: FrameId, i: nat, f: FrameId, k: Key) returns (r: Outcome<FrameId>)
      requires Valid() && FullChild(cache.S(), f, g, i) && Responsible(g, k)
               && i == LowerBound(cache.pool[g].node.keys, k)
      modifies Repr()
      ensures r.Done? ==>
                && Valid() && contents == old(contents) && Responsible(r.value, k) && !cache.pool[r.value].node.Full()
                && cache.pool[r.value].node.Level() + 1 == old(cache.pool[g].node.Level())
      ensures r.Done? ==> height == old(height) && root == old(root)
                          && PaidDown(old(cache.logical), cache.logical, k, old(cache.pool[g].node.Level()))
      ensures r.Done? ==> Spare() == old(Spare()) && innerNum >= old(innerNum)
      ensures r.Halted? ==> Exhausted(r.why) && contents == old(contents) && (r.why == BackendFull ==> old(NoRoom(1)))
                            && (r.why == SplitHazard ==> old(cache.pool[f].node.Inner?))
      ensures old(Roomy()) ==> if r.Done? then Roomy() else r.why == BackendFull
    {
      hide Warm, Exhausted, SplitUnder, PaidDown, Valid, CanSplit, Wired, FullChild;
      FrameSays(g);
      ghost var st, ga := cache.logical, cache.pool[g].remote;
      var split, b := SplitChild(g, i, f);
      if split.Halted? {
        return Halted(split.why);
      }
      r := PickHalf(g, i, k, st, ga, b);
    }

    /** The second search: of the halves of slot i the one responsible for k is loaded. */
    method PickHalf(g: FrameId, ghost i: nat, k: Key, ghost st: Store, ghost ga: GlobalAddress, ghost b: GlobalAddress)
      returns (r: Outcome<FrameId>)
      requires Valid() && InnerFrame(g) && cache.pool[g].remote == ga && CanSplit(st, root, height, ga, i, b)
      requires cache.logical == SplitUnder(st, ga, i, b) && st[ga].Covers(k) && i == LowerBound(st[ga].keys, k)
      modifies Repr()
      ensures Wired() && SameTree() && PaidDown(st, cache.logical, k, st[ga].Level())
      ensures r.Done? ==>
                && Valid() && Responsible(r.value, k) && !cache.pool[r.value].node.Full()
                && cache.pool[r.value].node.Level() + 1 == st[ga].Level()
      ensures r.Halted? ==> r.why == SamplerGaveUp && Exhausted(r.why)
      ensures old(Roomy()) ==> r.Done? && Roomy()
    {
      hide Warm, Exhausted, Split, SplitUnder, PaidDown;
      SplitThenStep(st, root, height, ga, i, b, k);
      FrameSays(g);
      r := LoadChild(g, LowerBound(cache.pool[g].node.keys, k));
      if r.Done? {
        FrameSays(r.value);
      }
    }

    /** One turn of insert's loop: from a page with room to the child responsible for k, with room. */
    method StepDownSplitting(g: FrameId, k: Key) returns (r: Outcome<FrameId>)
      requires Valid() && InnerFrame(g) && Responsible(g, k) && !cache.pool[g].node.Full()
      modifies Repr()
      ensures r.Done? ==>
                && Valid() && contents == old(contents) && Responsible(r.value, k) && !cache.pool[r.value].node.Full()
                && cache.pool[r.value].node.Level() + 1 == old(cache.pool[g].node.Level())
      ensures r.Done? ==> height == old(height) && root == old(root)
                          && PaidDown(old(cache.logical), cache.logical, k, old(cache.pool[g].node.Level()))
      ensures r.Done? ==> Spare() == old(Spare()) && innerNum >= old(innerNum)
      ensures r.Halted? ==> Exhausted(r.why) && contents == old(contents)
      ensures r.Halted? && r.why == BackendFull ==>
                old(NoRoom(1)) && PagesDue(old(cache.logical), k, old(cache.pool[g].node.Level())) > 0
      ensures r.Halted? && r.why == SplitHazard ==>
                FullInners(old(cache.logical), k, old(cache.pool[g].node.Level())) != {}
      ensures !Crowded(old(cache.logical), k) ==>
                && SameTree()
                && if r.Done? then Onward(old(cache.S()), cache.logical, k, cache.S())
                   else r.why == SamplerGaveUp && !Served(old(cache.S()), cache.logical, k)
      ensures old(Roomy()) ==> if r.Done? then Roomy() else r.why == BackendFull
    {
      hide Warm, Wired, Exhausted, PaidDown, Onward, Inv, TreeOk, Holds, RootIs;
      FrameSays(g);
      var child :- StepDown(g, k);
      FrameSays(child);
      FrameSays(g);
      if cache.pool[child].node.Full() {
        SomethingDue(cache.logical, k, cache.pool[child].remote, cache.pool[g].node.Level());
        r := SplitThenPick(g, LowerBound(cache.pool[g].node.keys, k), child, k);
      } else {
        PaidNothing(cache.logical, root, height, cache.pool[child].remote, k);
        r := Done(child);
      }
    }

    /** The search loop of insert: every page on the way has room when it is left. */
    method FindRoomyLeaf(k: Key) returns (r: Outcome<FrameId>)
      requires Valid()
      modifies Repr()
      ensures r.Done? ==>
                && Valid() && contents == old(contents) && Responsible(r.value, k)
                && cache.pool[r.value].node.Leaf? && !cache.pool[r.value].node.Full()
      ensures r.Done? ==> Grown(old(cache.logical), old(root), old(height), k)
      ensures r.Done? ==> Spare() == old(Spare())
      ensures r.Halted? ==> Exhausted(r.why) && contents == old(contents)
      ensures r.Halted? && r.why == BackendFull ==> old(NoRoom(AllDue(cache.logical, root, height, k)))
      ensures r.Halted? && r.why == SplitHazard ==> old(FullInners(cache.logical, k, height)) != {}
      ensures !Crowded(old(cache.logical), k) ==>
                && SameTree()
                && if r.Done? then Onward(old(cache.S()), cache.logical, k, cache.S())
                   else r.why == SamplerGaveUp && !Served(old(cache.S()), cache.logical, k)
      ensures old(Roomy()) ==> if r.Done? then Roomy() else r.why == BackendFull
    {
      hide Warm;
      hide Paid;
      hide Valid;
      hide Exhausted;
      Counted();
      var cur :- RoomyRoot(k);
      ghost var roots := height - old(height);
      while cache.pool[cur].node.Inner?
        invariant Valid() && contents == old(contents) && Responsible(cur, k) && !cache.pool[cur].node.Full()
        invariant (old(Roomy()) ==> Roomy()) && Spare() == old(Spare())
        invariant innerNum >= old(innerNum) + roots
        invariant roots == (if FullAt(old(cache.logical), k, old(root)) then 1 else 0) && height == old(height) + roots
        invariant Paid(old(cache.logical), cache.logical, k, old(height), cache.pool[cur].node.Level(), roots)
        invariant !Crowded(old(cache.logical), k) ==>
                    SameTree() && Onward(old(cache.S()), cache.logical, k, cache.S())
        decreases cache.pool[cur].node.Level()
      {
        ghost var s, st, n := cache.S(), cache.logical, cache.pool[cur].node.Level();
        Counted();
        var next := StepDownSplitting(cur, k);
        if next.Halted? {
          NotAllPaid(old(cache.logical), st, old(root), old(height), k, n, roots);
          return next;
        }
        cur := next.value;
        if !Crowded(old(cache.logical), k) { OnwardThen(old(cache.S()), s, cache.S(), st, k); }
        PaidThen(old(cache.logical), st, cache.logical, k, old(height), n, roots);
      }
      return Done(cur);
    }

    /** What insert comes to with its leaf in hand: a page more for every full one on the way, and a root
        more if the root was full. */
    ghost predicate Grown(st: Store, r: GlobalAddress, h: nat, k: Key)
      reads this, cache
    {
      && height == h + (if FullAt(st, k, r) then 1 else 0)
      && Paid(st, cache.logical, k, h, 0, height - h)
    }

    /** Where insert starts: at the root, with room. */
    method RoomyRoot(k: Key) returns (r: Outcome<FrameId>)
      requires Valid()
      modifies Repr()
      ensures r.Done? ==>
                && Valid() && contents == old(contents) && Responsible(r.value, k) && !cache.pool[r.value].node.Full()
                && var roots := if FullAt(old(cache.logical), k, old(root)) then 1 else 0;
                && height == old(height) + roots
                && Paid(old(cache.logical), cache.logical, k, old(height), cache.pool[r.value].node.Level(), roots)
      ensures r.Done? ==> Spare() == old(Spare()) && innerNum >= old(innerNum) + height - old(height)
      ensures r.Halted? ==> Exhausted(r.why) && contents == old(contents)
      ensures r.Halted? && r.why == BackendFull ==> old(NoRoom(AllDue(cache.logical, root, height, k)))
      ensures r.Halted? && r.why == SplitHazard ==> old(FullInners(cache.logical, k, height)) != {}
      ensures !FullAt(old(cache.logical), k, old(root)) ==>
                SameTree() && r.Done? && cache.S() == old(cache.S())
      ensures old(Roomy()) ==> if r.Done? then Roomy() else r.why == BackendFull
    {
      hide Warm, Paid, Exhausted, Wired;
      RootResponsible(k);
      FrameSays(rootSlot.frame);
      if cache.pool[rootSlot.frame].node.Full() {
        RootDue(cache.logical, root, height, k);
        var _ :- SplitRoot(k);
        RootResponsible(k);
        FrameSays(rootSlot.frame);
      } else {
        PaidNothing(cache.logical, root, height, root, k);
      }
      return Done(rootSlot.frame);
    }

    /** insert turns the map m into m[k := v] and says whether k is new. Each page on the way to k that holds
        59 keys costs one page more, and a root that does a new root; with none of them full only the leaf of
        k changes, and only a page missing from the pool can hold the insert up. */
    method Insert(k: Key, v: Value) returns (r: Outcome<bool>)
      requires Valid()
      modifies Repr()
      ensures r.Done? ==> Valid() && r.value == (k !in old(contents)) && contents == old(contents)[k := v]
      ensures r.Done? ==>
                && leafNum == old(leafNum) + |FullLeaves(old(cache.logical), k, old(height))|
                && height == old(height) + (if FullAt(old(cache.logical), k, old(root)) then 1 else 0)
                && innerNum == old(innerNum) + |FullInners(old(cache.logical), k, old(height))| + height - old(height)
      ensures r.Done? ==> Spare() == old(Spare())
      ensures r.Halted? ==> Exhausted(r.why) && contents == old(contents)
      ensures r.Halted? && r.why == BackendFull ==> old(NoRoom(AllDue(cache.logical, root, height, k)))
      ensures r.Halted? && r.why == SplitHazard ==> old(FullInners(cache.logical, k, height)) != {}
      ensures !Crowded(old(cache.logical), k) ==>
                && SameCounts() && OnlyLeafOf(old(cache.logical), cache.logical, k)
                && (r.Halted? ==> r.why == SamplerGaveUp)
                && (Served(old(cache.S()), old(cache.logical), k) ==> r.Done?)
                && (Misses(old(cache.S()), old(cache.logical), k)
                    || (r.Done? && LeafWrite(old(cache.S()), old(cache.logical), k, cache.S())))
      ensures old(Roomy()) ==> if r.Done? then Roomy() else r.why == BackendFull
    {
      hide Warm, Valid, Exhausted, Paid, Served, Misses, OnlyLeafOf, LeafWrite, FullLeaves, FullInners, Leaves, Inners;
      SameLeaves(cache.logical, k);
      Counted();
      var found := FindRoomyLeaf(k);
      if found.Halted? {
        if !Crowded(old(cache.logical), k) { UnservedMisses(old(cache.S()), cache.logical, k); }
        return Halted(found.why);
      }
      Counted();
      AllPaid(old(cache.logical), cache.logical, k, old(height), height - old(height));
      var isNew := PutEntry(found.value, k, v);
      return Done(isNew);
    }

    /** The end of insert: the leaf of k, which has room, gets the entry. */
    method PutEntry(f: FrameId, k: Key, v: Value) returns (isNew: bool)
      requires Valid() && Responsible(f, k) && cache.pool[f].node.Leaf? && !cache.pool[f].node.Full()
      modifies Repr()
      ensures Valid() && isNew == (k !in old(contents)) && contents == old(contents)[k := v] && SameCounts()
      ensures OnlyLeafOf(old(cache.logical), cache.logical, k)
      ensures LeafWrite(old(cache.S()), old(cache.logical), k, cache.S())
      ensures old(Roomy()) ==> Roomy()
    {
      hide Warm;
      hide LeafWrite, OnlyLeafOf;
      FrameSays(f);
      LeafAnswers(cache.logical, root, height, contents, cache.pool[f].remote, k);
      InsertAtLeaf(cache.logical, root, height, contents, cache.pool[f].remote, k, v);
      var es := cache.pool[f].node.entries;
      StoreLeafOk(cache.logical, root, height, cache.pool[f].remote, LeafInsert(es, k, v), cache.pool[f].node);
      StoreEntries(f, LeafInsert(es, k, v), k, contents[k := v]);
      return LeafFind(es, k).None?;
    }

    /** range_scan: the in-order entries from k on, num of them or what the leaf of k still has. */
    method RangeScan(k: Key, num: nat) returns (r: Outcome<seq<Entry>>)
      requires Valid()
      modifies Repr()
      ensures SameTree()
      ensures r.Done? ==> Valid() && ScansInOrder(cache.logical, root, k, num, r.value)
                          && ScanOf(contents, k, num, r.value)
      ensures r.Done? ==> ScansLeaf(cache.logical, contents, k, num, r.value)
      ensures r.Halted? ==> r.why == SamplerGaveUp && Exhausted(r.why)
      ensures Served(old(cache.S()), cache.logical, k) ==> r.Done?
      ensures Misses(old(cache.S()), cache.logical, k) || (r.Done? && cache.S() == old(cache.S()))
      ensures old(Roomy()) ==> r.Done? && Roomy()
    {
      hide Warm;
      var f :- FindLeaf(k);
      FrameSays(f);
      var out := LeafScan(cache.pool[f].node.entries, k, num);
      LeafScanIsTreeScan(cache.logical, root, height, contents, cache.pool[f].remote, k, num);
      ScanHasNoGap(cache.logical, root, height, contents, k, num, out);
      ScanEndsWithLeaf(cache.logical, root, height, contents, cache.pool[f].remote, k, num);
      assert ScansTo(cache.logical, contents, k, num, out, cache.pool[f].remote);
      return Done(out);
    }

    /** What the destructor does first: every dirty page goes to the backend, which then holds the whole tree. */
    method Flush()
      requires Valid()
      modifies cache.backend`disk, cache.backend.store, cache.pool
      ensures Valid() && SameTree()
      ensures forall a | a in cache.logical :: a in cache.backend.disk && cache.backend.disk[a].remote == a
                                               && cache.backend.disk[a].node == Lift(cache.logical[a])
      ensures forall f | 0 <= f < cache.pool.Length :: cache.pool[f] == old(cache.pool[f]).(dirty := false)
      ensures old(Roomy()) ==> Roomy()
    {
      hide Warm;
      hide TreeInv;
      hide Inv;
      hide RootIs;
      hide Lift;
      ghost var s := cache.S();
      CacheIsValid();
      cache.FlushAll();
      FlushKeepsTree(s, cache.S(), cache.logical, rootSlot, root, height, contents);
      if old(Roomy()) { AsWarm(s, cache.S()); }
    }

    lemma CacheIsValid()
      requires Valid()
      ensures cache.Valid()
    {
    }

    /** On a backend of at most 2^47 bytes every slot word means what it says and every level fits in
        its byte, below super_root_'s 255. */
    lemma WordsAndLevelsFit(f: FrameId, i: nat)
      requires Valid() && cache.backend.capacityBytes <= TWO_47
      requires InnerFrame(f) && i < |cache.pool[f].node.children|
      ensures Decode(Encode(cache.pool[f].node.children[i])) == cache.pool[f].node.children[i]
      ensures cache.pool[f].node.Level() < 9 && height <= 9
    {
      DiskIsLow();
      SlotsDecode(cache.S(), cache.logical, root, height, f, i);
      LevelsFitInAByte(cache.logical, root, height);
      FrameSays(f);
    }

    /** Logical pages live at page-aligned offsets of memory node 0. */
    lemma DiskIsLow()
      requires Valid() && cache.backend.capacityBytes <= TWO_47
      ensures forall a | a in cache.S().disk :: a.nodeID == 0 && a.offset % PAGE_SIZE == 0 && a.offset < TWO_47
      ensures forall a | a in cache.logical :: a in cache.S().disk
    {
      forall a | a in cache.logical ensures a in cache.S().disk {
        assert DiskSound(cache.S(), cache.logical, a);
      }
    }

    /** The counters are true: every leaf and inner page counted hangs in the tree, and a tall tree
        has many leaves. */
    lemma CountsAndHeight()
      requires Valid()
      ensures leafNum == |LeafRun(cache.logical, root)| && leafNum + innerNum == |cache.logical|
      ensures height >= 2 ==> leafNum >= 2 * Power(29, height - 2)
      ensures height == cache.logical[root].Level() + 1
    {
      RunHasAllLeaves(cache.logical, root, height);
      assert cache.logical.Keys == Leaves(cache.logical) + Inners(cache.logical);
      if height >= 2 {
        HeightBound(cache.logical, root, height);
      }
    }
  }

  lemma UnusedIsWarm(s: State)
    requires Unused(s)
    ensures Warm(s)
  {
  }

  /** The step down after a split, with what the split has paid for. */
  lemma SplitThenStep(st: Store, root: GlobalAddress, height: nat, p: GlobalAddress, i: nat, b: GlobalAddress, k: Key)
    requires CanSplit(st, root, height, p, i, b) && st[p].Covers(k) && i == LowerBound(st[p].keys, k)
    ensures var st' := SplitUnder(st, p, i, b);
            && p in st' && st'[p].Inner? && PaidDown(st, st', k, st[p].Level())
            && var j := LowerBound(st'[p].keys, k);
               && j < |st'[p].children| && st'[p].children[j] in st'
               && var c := st'[st'[p].children[j]];
                  !c.Full() && c.Covers(k) && c.Level() + 1 == st[p].Level()
  {
    hide PaidDown;
    DescendStep(st, root, height, p, k);
    SplitThenDescend(st, root, height, p, i, b, k);
    PaidSplit(st, root, height, p, i, b, k);
    SplitUnderPages(st, root, height, p, i, b);
    DescendStep(SplitUnder(st, p, i, b), root, height, p, k);
  }

  /** The new root has one separator, so it is not full; the counts grow as the pages do. */
  lemma GrownRoot(st: Store, root: GlobalAddress, height: nat, b: GlobalAddress, r: GlobalAddress)
    requires TreeOk(st, root, height) && NodeOk(st[root]) && st[root].Full() && b !in st && r !in HalvedAt(st, root, b)
    ensures var st' := GrowRoot(st, root, b, r);
            && |Leaves(st')| == |Leaves(st)| + (if st[root].Leaf? then 1 else 0)
            && |Inners(st')| == |Inners(st)| + (if st[root].Leaf? then 1 else 2)
            && !st'[r].Full() && st[root].Level() + 1 == height
  {
    CountGrowRoot(st, root, height, b, r);
  }

  /** Clearing dirty flags moves no frame. */
  lemma FlushKeepsTree(s: State, s': State, st: Store, slot: Slot, root: GlobalAddress, height: nat, m: map<Key, Value>)
    requires TreeInv(s, st, slot, root, height, m) && Inv(s', st, {}) && |s'.frames| == |s.frames|
    requires forall f | 0 <= f < |s.frames| :: s'.frames[f] == s.frames[f].(dirty := false)
    ensures TreeInv(s', st, slot, root, height, m)
  {
    RootIsStill(s, s', slot, root);
  }

  /** The tree under its new root: counted, and with room at the top. */
  lemma RootFinished(s: State, s': State, st: Store, root: GlobalAddress, height: nat, m: map<Key, Value>,
                     f: FrameId, b: GlobalAddress, right: Slot, slot: Slot, r: GlobalAddress, k: Key)
    requires Rootless(s, st, root, height, m, f, b, right) && r !in HalvedAt(st, root, b)
    requires TreeInv(s', GrowRoot(st, root, b, r), slot, r, height + 1, m)
    ensures slot.Tagged? && slot.frame < |s'.frames| && !s'.frames[slot.frame].node.Full()
    ensures var st' := GrowRoot(st, root, b, r);
            && |Leaves(st')| == |Leaves(st)| + (if st[root].Leaf? then 1 else 0)
            && |Inners(st')| == |Inners(st)| + (if st[root].Leaf? then 1 else 2)
            && st[root].Level() + 1 == height && Paid(st, st', k, height, height, 1)
  {
    hide Paid;
    GrownRoot(st, root, height, b, r);
    PaidRoot(st, root, height, b, r, k);
    FrameIsFull(s', GrowRoot(st, root, b, r), slot.frame);
  }

  lemma RootlessIsSound(s: State, st: Store, root: GlobalAddress, height: nat, m: map<Key, Value>,
                        f: FrameId, b: GlobalAddress, right: Slot)
    requires Rootless(s, st, root, height, m, f, b, right)
    ensures root in st && NodeOk(st[root]) && st[root].Full() && Inv(s, HalvedAt(st, root, b), {})
    ensures Holds(HalvedAt(st, root, b), m)
  {
    HalvesKeepEntries(st, HalvedAt(st, root, b), root, b);
  }

  lemma FrameIsFull(s: State, st: Store, f: FrameId)
    requires Stored(s, st) && InTree(s, f)
    ensures s.frames[f].remote in st && s.frames[f].node.Full() == st[s.frames[f].remote].Full()
  {
    assert Mirrors(s, st, f);
  }

  /** The root's frame and its logical page split alike. */
  lemma RootSplitFacts(s: State, st: Store, slot: Slot, root: GlobalAddress, height: nat, m: map<Key, Value>)
    requires TreeInv(s, st, slot, root, height, m) && slot.Tagged? && slot.frame < |s.frames|
             && s.frames[slot.frame].node.Full()
    ensures var n := s.frames[slot.frame].node;
            && root in st && NodeOk(n) && NodeOk(st[root]) && st[root].Full() && st[root].Leaf? == n.Leaf?
            && st[root].Level() == n.Level() && Split(st[root]).sep == Split(n).sep
  {
    assert FrameSound(s, slot.frame) && Mirrors(s, st, slot.frame);
    SplitSays(s, s.frames[slot.frame].node, st[root]);
  }

  /** The root's frame is resident and sound. */
  lemma RootFrame(s: State, st: Store, slot: Slot, root: GlobalAddress, height: nat, m: map<Key, Value>)
    requires TreeInv(s, st, slot, root, height, m)
    ensures slot.Tagged? && InTree(s, slot.frame) && NodeOk(s.frames[slot.frame].node)
  {
    assert FrameSound(s, slot.frame);
  }

  /** Everything a leaf split under its parent keeps, with the page counts. */
  lemma LeafSplitWhole(s: State, s': State, st: Store, st': Store, slot: Slot, root: GlobalAddress, height: nat,
                       m: map<Key, Value>, f: FrameId, g: FrameId, i: nat, b: GlobalAddress)
    requires TreeInv(s, st, slot, root, height, m) && FullChild(s, f, g, i) && s.frames[f].node.Leaf? && b !in st
    requires NodeOk(s.frames[f].node) && NodeOk(s.frames[g].node)
             && CanSplit(st, root, height, s.frames[g].remote, i, b)
    requires s' == SplitLeafUnder(s, f, g, b) && st' == SplitUnder(st, s.frames[g].remote, i, b)
    ensures TreeInv(s', st', slot, root, height, m)
    ensures |Leaves(st')| == |Leaves(st)| + 1 && |Inners(st')| == |Inners(st)|
    ensures InTree(s', g) && s'.frames[g].remote == s.frames[g].remote
    ensures s'.frames[g].node.Inner? && i + 1 < |s'.frames[g].node.children|
  {
    LeafSplitDone(s, st, slot, root, height, m, f, g, i, b);
    CountSplitUnder(st, root, height, s.frames[g].remote, i, b);
    SlotOfFrame(s, st, root, height, {}, g, i);
    SplitFull(s, st, s.frames[g].remote, i, f);
  }

  /** The child behind slot i is a leaf or not as its frame is. */
  lemma SplitFull(s: State, st: Store, ga: GlobalAddress, i: nat, f: FrameId)
    requires Stored(s, st) && InTree(s, f)
    requires ga in st && st[ga].Inner? && i < |st[ga].children| && st[ga].children[i] == s.frames[f].remote
    ensures st[ga].children[i] in st && st[st[ga].children[i]].Leaf? == s.frames[f].node.Leaf?
  {
    assert Mirrors(s, st, f);
  }

  /** New entries in a resident leaf are new entries in the tree. */
  lemma LeafWritten(s: State, st: Store, f: FrameId, es: seq<Entry>, slot: Slot, root: GlobalAddress, height: nat,
                    m: map<Key, Value>, m': map<Key, Value>)
    requires TreeInv(s, st, slot, root, height, m) && InTree(s, f) && s.frames[f].node.Leaf?
             && NodeOk(s.frames[f].node.(entries := es))
    requires var a := s.frames[f].remote;
             a in st && st[a].Leaf? && TreeOk(WithLeaf(st, a, es), root, height) && Holds(WithLeaf(st, a, es), m')
    ensures var st' := WithLeaf(st, s.frames[f].remote, es);
            && TreeInv(WriteLeaf(s, f, es), st', slot, root, height, m') && Leaves(st') == Leaves(st)
               && Inners(st') == Inners(st)
  {
    WriteLeafKeeps(s, st, f, es);
    CountWithLeaf(st, s.frames[f].remote, es);
    WriteLeafKeepsRoot(s, f, es, slot, root);
  }

  lemma WriteLeafKeepsRoot(s: State, f: FrameId, es: seq<Entry>, slot: Slot, root: GlobalAddress)
    requires RootIs(s, slot, root) && InTree(s, f) && s.frames[f].node.Leaf?
    ensures RootIs(WriteLeaf(s, f, es), slot, root)
  {
    assert forall x: FrameId :: InTree(WriteLeaf(s, f, es), x) <==> InTree(s, x);
  }

  /** Entries that make a sound leaf in the tree make a sound leaf in the frame. */
  lemma StoreLeafOk(st: Store, root: GlobalAddress, height: nat, a: GlobalAddress, es: seq<Entry>, n: Node<Slot>)
    requires a in st && st[a].Leaf? && TreeOk(WithLeaf(st, a, es), root, height)
    requires n.Leaf? && n.lo == st[a].lo && n.hi == st[a].hi
    ensures NodeOk(n.(entries := es))
  {
    assert NodeOk(WithLeaf(st, a, es)[a]);
  }

  /** The page that BTreeLeaf's constructor builds. */
  function NewLeaf(a: GlobalAddress, lo: Key, hi: Key): Page {
    Page(a, {}, NoParent, REMOTE, true, Leaf(lo, hi, []))
  }

  function EmptyLeaf(a: GlobalAddress): Page {
    NewLeaf(a, 0, KEY_MAX)
  }

  /** A cache with nothing resident and one empty leaf in the backend. */
  function FirstStore(a: GlobalAddress): Store {
    map[a := Leaf(0, KEY_MAX, [])]
  }

  lemma WrittenTwice(m: map<GlobalAddress, Page>, a: GlobalAddress, x: Page, y: Page)
    ensures m[a := x][a := y] == m[a := y]
  {
  }

  lemma FirstPage(s: State, s': State, a: GlobalAddress)
    requires Inv(s, map[], {}) && Residents(s) == {} && s' == s.(disk := s.disk[a := EmptyLeaf(a)])
    ensures var st := FirstStore(a); Inv(s', st, {}) && Fetched(st, s'.disk[a], a)
    ensures Residents(s') == {}
  {
    assert forall f: FrameId :: InTree(s', f) <==> f in Residents(s);
    SamePlaces(s, s', {});
  }

  lemma FirstTree(a: GlobalAddress)
    ensures var st := FirstStore(a);
            TreeOk(st, a, 1) && Holds(st, map[]) && |Leaves(st)| == 1 && |Inners(st)| == 0
  {
    var st := FirstStore(a);
    assert Leaves(st) == {a} && Inners(st) == {};
    assert NodeOk(st[a]);
  }

  lemma FirstRoot(s: State, s1: State, a: GlobalAddress, p: FrameId, buf: Page)
    requires Residents(s) == {} && Calmer(s, s1) && Inv(s1, FirstStore(a), {p}) && p < |s1.frames|
    requires Fetched(FirstStore(a), buf, a)
    ensures var s2, st := Admit(s1, p, buf.(pos := HOT, parent := SuperRoot)), FirstStore(a);
            TreeInv(s2, st, Tagged(p), a, 1, map[])
  {
    var s2 := Admit(s1, p, buf.(pos := HOT, parent := SuperRoot));
    forall f: FrameId ensures !InTree(s1, f) {
      assert InTree(s1, f) ==> InTree(s, f) && f in Residents(s);
    }
    LoadTopKeeps(s1, FirstStore(a), p, buf);
    FirstTree(a);
    assert forall f: FrameId :: InTree(s2, f) ==> f == p || InTree(s1, f);
  }

  /** The backend's page of a non-resident child is up to date. */
  lemma MissFetched(s: State, st: Store, root: GlobalAddress, height: nat, g: FrameId, i: nat, a: GlobalAddress)
    requires Inv(s, st, {}) && TreeOk(st, root, height) && TopIs(s, root)
    requires InTree(s, g) && s.frames[g].node.Inner? && i < |s.frames[g].node.children|
    requires s.frames[g].node.children[i] == Untagged(a)
    ensures a in s.disk && s.disk[a].remote == a && Fetched(st, s.disk[a], a) && NotResident(s, a)
  {
    UnswizzledIsNotResident(s, st, root, height, g, i);
    SlotOfFrame(s, st, root, height, {}, g, i);
    NotResidentNotAhead(s, a);
    assert DiskSound(s, st, a);
  }

  /** The miss path before the page is read: the parent may be pinned. */
  lemma MissPinned(s: State, st: Store, slot: Slot, root: GlobalAddress, height: nat, m: map<Key, Value>,
                   g: FrameId, i: nat, a: GlobalAddress)
    requires TreeInv(s, st, slot, root, height, m) && InTree(s, g) && s.frames[g].node.Inner?
    requires i < |s.frames[g].node.children| && s.frames[g].node.children[i] == Untagged(a)
    ensures a in s.disk && s.disk[a].remote == a && Fetched(st, s.disk[a], a) && NotResident(s, a)
    ensures Inv(Repin(s, g, PINNED), st, {})
  {
    MissFetched(s, st, root, height, g, i, a);
    RepinKeeps(s, st, g, PINNED, {});
  }

  lemma NotResidentNotAhead(s: State, a: GlobalAddress)
    requires Mapped(s, {}) && NotResident(s, a)
    ensures !Ahead(s, a)
  {
    assert a in s.pages ==> EntrySound(s, {}, a);
  }
}
