/** The cache manager (include/cache/LeanStoreCache.h, include/cache/NodeWR.h): how a frame is
    obtained, how a page is cooled and evicted, and how dirty pages are flushed. Every random
    choice is left open. */
module CacheManager {
  import opened Types
  import opened Node
  import opened BPlusTree
  import opened CacheState
  import opened CacheSteps
  import opened LoadSteps
  import opened SplitSteps
  import opened Backend
  import opened CoolingTable
  import opened PageTable
  import opened Word
  import opened SampleSteps
  import opened SplitWindow
  import opened WindowRuns
  import opened TreeFacts

  const NUM_PAGES_TO_SAMPLE: nat := 2

  /** The numbers the code is built with. */
  lemma Settings()
    ensures NUM_PAGES_TO_SAMPLE == 2 && PROBING_LENGTH == 8 && NUM_ENTRIES == 6 && ENTRIES == 3 && MAX_TRIES == 1000
    ensures PAGE_SIZE == 1024 && KEY_MAX == 0xFFFF_FFFF_FFFF_FFFF
  {
  }

  /** A pool nobody has used yet. */
  ghost predicate Unused(s: State) {
    && |s.frames| > 0 && (forall f | 0 <= f < |s.frames| :: s.frames[f] == BLANK)
    && (forall b | 0 <= b < |s.cool| :: s.cool[b] == []) && s.pages == map[] && s.free == [] && s.head == 0
       && !s.dynamic
  }

  lemma UnusedOk(s: State)
    requires Unused(s)
    ensures Inv(s, map[], {}) && Residents(s) == {}
  {
    assert forall f: FrameId :: !InTree(s, f);
  }

  // --- The manager ---

  class CacheManager {
    const backend: InMemoryBackend
    const allocator: CacheAllocator
    const hashTable: HashTable
    const pageTable: PageTable
    const pool: array<Page>
    var dynamic: bool               // state == 1
    var localPageSet: seq<FrameId>
    ghost var logical: Store        // what every address in use logically holds
    ghost var gaveUp: bool          // a call of sample_page has used up its tries

    ghost function Repr(): set<object> {
      {this as object, backend, backend.store, allocator, hashTable, pageTable, pageTable.table, pool} + hashTable.Parts
    }

    /** The indexes that taking a frame may change; the pool and the backend are not among them. */
    ghost function Books(): set<object> {
      {this as object, allocator, hashTable, pageTable, pageTable.table} + hashTable.Parts
    }

    ghost predicate Wired()
      reads Repr()
    {
      && backend.Valid() && backend.Unwritten() && allocator.Valid() && hashTable.Valid() && pageTable.Valid()
      && pool != backend.store && 0 < pool.Length == allocator.pageNum && pool.Length <= TWO_48
      && hashTable.Parts !! {this as object, backend, backend.store, allocator, hashTable, pageTable, pageTable.table,
                              pool}
    }

    ghost function S(): State
      reads this, backend, allocator, hashTable, pageTable, pool
    {
      State(pool[..], backend.disk, hashTable.cool, pageTable.contents, localPageSet, allocator.headIdx, dynamic)
    }

    /** Between two calls no frame is in hand. */
    ghost predicate Valid()
      reads Repr()
    {
      Wired() && !gaveUp && Inv(S(), logical, {})
    }

    /** The pool shows the sound state s; in the window of an inner split with one page of it cut, and
        with the parent pointers of some moved children cleared. */
    ghost predicate Stands(s: State, cut: Option<Cutting>, loose: set<FrameId>)
      reads Repr()
    {
      Wired() && Sound(s, logical, cut) && LooseOk(cut, loose) && S() == Shown(s, cut, loose)
    }

    /** ... and the sampler has not given up. */
    ghost predicate Shows(s: State, cut: Option<Cutting>, loose: set<FrameId>)
      reads Repr()
    {
      !gaveUp && Stands(s, cut, loose)
    }

    /** The cooling table gets cache_capacity * cooling_ratio entries. */
    constructor (backend: InMemoryBackend, capacity: nat, coolingEntries: nat, hash: GlobalAddress -> Hash)
      requires backend.Valid() && backend.Unwritten()
      requires 0 < capacity <= TWO_48 && 0 < coolingEntries
      ensures Valid() && logical == map[] && this.backend == backend && pool.Length == capacity && !dynamic
      ensures fresh(Repr() - {backend, backend.store}) && Residents(S()) == {} && backend.disk == old(backend.disk)
      ensures Unused(S()) && |hashTable.cool| == (coolingEntries + NUM_ENTRIES - 1) / NUM_ENTRIES
      ensures hashTable.hash == hash && pageTable.hash == hash
      ensures pageTable.table.Length == (capacity + ENTRIES - 1) / ENTRIES
    {
      this.backend := backend;
      allocator := new CacheAllocator(capacity);
      pageTable := new PageTable(capacity, hash);
      hashTable := new HashTable(coolingEntries, hash);
      pool := new Page[capacity](_ => BLANK);
      dynamic := false;
      localPageSet := [];
      logical := map[];
      gaveUp := false;
      new;
      assert Wired();
      assert Unused(S());
      UnusedOk(S());
    }

    // --- Single stores, as the code above and the tree make them ---

    /** A store through a frame's pointer. */
    method SetFrame(f: FrameId, page: Page)
      requires Wired() && f < pool.Length
      modifies pool
      ensures Wired() && S() == old(S()).(frames := old(S()).frames[f := page])
    {
      ghost var s := S();
      pool[f] := page;
      assert pool[..] == s.frames[f := page];
    }

    /** The tree has changed what the addresses hold. */
    ghost method SetLogical(st: Store)
      requires Wired()
      modifies this`logical
      ensures Wired() && S() == old(S()) && logical == st
    {
      logical := st;
    }

    /** backend_->alloc(PAGE_SIZE) */
    method AllocPage() returns (a: GlobalAddress)
      requires Wired()
      modifies backend
      ensures Wired()
      ensures a == NULL <==> old(backend.curOffset) + PAGE_SIZE > backend.capacityBytes
      ensures a == NULL ==> S() == old(S()) && backend.curOffset == old(backend.curOffset)
      ensures a != NULL ==> a !in old(backend.disk) && S() == old(S()).(disk := old(backend.disk)[a := BLANK])
                            && backend.curOffset == old(backend.curOffset) + PAGE_SIZE
    {
      RoundedIs(PAGE_SIZE);
      a := backend.Alloc(PAGE_SIZE);
    }

    /** backend_->write of a page that was allocated. */
    method WritePage(a: GlobalAddress, page: Page)
      requires Wired() && a in backend.disk
      modifies backend`disk, backend.store
      ensures Wired() && S() == old(S()).(disk := old(backend.disk)[a := page])
    {
      var ok := backend.Write(a, page);
    }

    /** raw_remote_read of a page that was allocated. */
    method ReadPage(a: GlobalAddress) returns (page: Page)
      requires Wired() && a in backend.disk
      ensures page == backend.disk[a]
    {
      var r := backend.Read(a);
      page := r.value;
    }

    // --- Obtaining a frame ---

    /** random_evict_to_remote, with the page-table clean-up. */
    method TakeFromCooling() returns (page: Option<FrameId>)
      requires Wired() && Accounted(S(), {}) && dynamic && localPageSet == []
      modifies hashTable, hashTable.Parts, pageTable`contents, pageTable.table
      ensures Wired()
      ensures page.None? ==> S() == old(S()) && NothingAtHand(S())
      ensures page.Some? ==> Takes(old(S()), S(), page.value)
    {
      ghost var s0 := S();
      ghost var b, start;
      page, b, start := hashTable.RandomEvict(PROBING_LENGTH);
      if page.Some? {
        ghost var e := s0.cool[b][|s0.cool[b]| - 1];
        CoolPagesInPool(s0, {}, b);
        assert e in s0.cool[b];
        assert FirstProbed(s0.cool, b);
        var removed := pageTable.Remove(pool[page.value].remote, page.value);
        assert S() == TakeCooled(s0, b);
      }
    }

    /** One try at a frame without the sampler: the allocator while warming up, then
        local_page_set, then the cooling table. */
    method TakeWithoutSampling() returns (page: Option<FrameId>)
      requires Wired() && Accounted(S(), {})
      modifies Books()
      ensures Wired() && logical == old(logical) && gaveUp == old(gaveUp)
      ensures page.None? ==> S() == old(S()) && NothingAtHand(S())
      ensures page.Some? ==> Takes(old(S()), S(), page.value)
    {
      if dynamic {
        if localPageSet != [] {
          page := Some(localPageSet[|localPageSet| - 1]);
          localPageSet := localPageSet[..|localPageSet| - 1];
          return;
        }
        page := TakeFromCooling();
      } else {
        var last;
        page, last := allocator.Allocate();
        if last {
          dynamic := true;
        }
      }
    }

    // --- The sampler ---

    /** get_bucket, for any address. */
    ghost function BucketOf(): GlobalAddress -> nat {
      a => if |hashTable.buckets| > 0 then hashTable.BucketIdx(a) else 0
    }

    /** recursive_iterate: from a frame down through set bits to one with none. idx is the slot
        the walk took last, -1 when it took none; nothing comes back exactly if the frame it ends at is
        not HOT. */
    method RecursiveIterate(start: FrameId, ghost s: State, ghost cut: Option<Cutting>,
                           ghost loose: set<FrameId>)
      returns (bottom: Option<FrameId>, idx: int, ghost path: seq<FrameId>)
      requires Shows(s, cut, loose) && InTree(s, start)
      ensures path != [] && path[0] == start && path[|path| - 1] < pool.Length && Trail(S(), Pick(path, idx))
      ensures pool[path[|path| - 1]].bitmap == {}
      ensures bottom == if pool[path[|path| - 1]].pos == HOT then Some(path[|path| - 1]) else None
      ensures pool[start].pos == HOT && pool[start].bitmap == {} ==> bottom == Some(start) && idx == -1
      ensures bottom.None? ==> Barren(S())
      ensures bottom.Some? ==>
                && InTree(s, bottom.value) && pool[bottom.value].pos == HOT && pool[bottom.value].bitmap == {}
                && (idx == -1 ==> bottom.value == start)
                && (idx != -1 ==> HangsSeen(s, cut, bottom.value, idx))
    {
      hide Trail, HangsSeen, Shows;
      var cur: FrameId := start;
      idx := -1;
      path := [start];
      InThePool(s, cut, loose, start);
      TrailStarts(S(), start);
      while pool[cur].bitmap != {}
        invariant Shows(s, cut, loose) && InTree(s, cur) && cur < pool.Length
        invariant pool[start].bitmap == {} ==> cur == start && idx == -1
        invariant path != [] && path[0] == start && path[|path| - 1] == cur && Trail(S(), Pick(path, idx))
        invariant idx == -1 ==> cur == start
        invariant idx != -1 ==> HangsSeen(s, cut, cur, idx)
        decreases s.frames[cur].node.Level()
      {
        ghost var so := Pick(path, idx);
        cur, idx := WalkDown(cur, s, cut, loose);
        TrailOn(S(), so, idx, cur);
        path := path + [cur];
      }
      if pool[cur].pos != HOT {
        assert Idle(S().frames[cur]);
        return None, idx, path;
      }
      return Some(cur), idx, path;
    }

    lemma InThePool(s: State, cut: Option<Cutting>, loose: set<FrameId>, f: FrameId)
      requires Shows(s, cut, loose) && InTree(s, f)
      ensures f < pool.Length
      ensures cut.Some? ==> FullInner(s, cut.value.frame)
    {
    }

    /** One step of the walk: the child of the set bit nearest to an arbitrary slot. */
    method WalkDown(cur: FrameId, ghost s: State, ghost cut: Option<Cutting>, ghost loose: set<FrameId>)
      returns (child: FrameId, idx: nat)
      requires Shows(s, cut, loose) && InTree(s, cur) && pool[cur].bitmap != {}
      ensures HangsSeen(s, cut, child, idx) && s.frames[child].parent == InPool(cur) && idx in pool[cur].bitmap
      ensures Shows(s, cut, loose) && child < pool.Length && InTree(s, child) && Leads(S(), cur, idx, child)
      ensures s.frames[child].node.Level() < s.frames[cur].node.Level()
    {
      ghost var b :| b in pool[cur].bitmap;
      BitLeads(s, logical, cut, cur, b);
      var n := pool[cur].node;
      var pos: nat :| pos <= |n.keys|;  // murmur64 of the frame's address, modulo the slots
      assert Distance(b, pos) < 64;
      idx := ClosestFrom(pool[cur].bitmap, pos, 0);
      BitLeads(s, logical, cut, cur, idx);
      child := n.children[idx].frame;
    }

    /** remote_write: the page as it is goes to the backend, without its place in the pool. */
    method RemoteWrite(f: FrameId)
      requires Wired() && f < pool.Length && pool[f].remote in backend.disk
      modifies backend`disk, backend.store, pool
      ensures Wired()
      ensures S() == old(S()).(frames := old(S()).frames[f := old(pool[f]).(dirty := false)],
                               disk := old(S()).disk[old(pool[f]).remote :=
                                         old(pool[f]).(dirty := false, parent := NoParent, pos := REMOTE)])
    {
      ghost var s := S();
      pool[f] := pool[f].(dirty := false);
      var ok := backend.Write(pool[f].remote, pool[f].(parent := NoParent, pos := REMOTE));
      assert pool[..] == s.frames[f := s.frames[f].(dirty := false)];
    }

    /** HashTable::insert for a retired frame: it becomes COOL, and what its bucket gives up
        leaves the page table. */
    method Chill(f: FrameId) returns (evicted: Option<FrameId>)
      requires Wired() && f < pool.Length
      requires FiledRight(S(), hashTable.BucketIdx(pool[f].remote), f)
      modifies hashTable, hashTable.Parts, pageTable`contents, pageTable.table, pool
      ensures Wired()
      ensures var s, b := old(S()), hashTable.BucketIdx(old(pool[f].remote));
              var s2 := Chilled(s, f, b);
              if |s.cool[b]| < NUM_ENTRIES then evicted.None? && S() == s2
              else evicted == Some(s.cool[b][NUM_ENTRIES - 1].page) && |s.cool[b]| == NUM_ENTRIES
                   && S() == TakeCooled(s2, b)
    {
      ghost var s, b := S(), hashTable.BucketIdx(pool[f].remote);
      assert hashTable.BucketIs(b);
      evicted := hashTable.Insert(pool[f].remote, f);
      pool[f] := pool[f].(pos := COOL);
      assert pool[..] == s.frames[f := s.frames[f].(pos := COOL)];
      if evicted.Some? {
        ghost var es, e := s.cool[b], CoolEntry(s.frames[f].remote, f);
        assert es[NUM_ENTRIES - 1] in es;
        assert ([e] + es)[..NUM_ENTRIES] == [e] + es[..NUM_ENTRIES - 1];
        var removed := pageTable.Remove(pool[evicted.value].remote, evicted.value);
      }
    }

    /** The choice of one pass through sample_page's loop. Away from the window of an inner split only
        skipping and cooling are chosen: the page is no orphan, its parent has a slot for it, and the
        check on the two passes. In the window a page that moved may be found to have lost its slot, and
        an orphan or a failing check comes up only where the pass does harm. */
    method SelectFrame(ghost s: State, ghost cut: Option<Cutting>, ghost loose: set<FrameId>)
      returns (choice: Choice, ghost pick: Pick)
      requires Shows(s, cut, loose)
      ensures Drawn(S(), pick) && choice == Chosen(S(), pick)
      ensures choice.Skip? ==> Barren(S())
      ensures choice.Cool? ==> choice.page !in loose && Choosable(s, cut, choice.page, choice.parent, choice.idx)
                               && Tagged(choice.page) !in MovedBy(cut)
      ensures choice.Orphan? ==> Tagged(choice.page) in MovedBy(cut)
      ensures choice.Stale? ==> cut.Some? && Tagged(choice.page) in cut.value.moved && choice.page !in loose
                                && choice.page < pool.Length && Lively(pool[choice.page])
      ensures choice.Stale? || Fatal(choice) ==> Harmful(s, cut)
      ensures Fatal(choice) ==> Deadly(S())
    {
      hide LooseOk, HangsSeen, Trail, Choosable, Harmful;
      var page: nat :| page < pool.Length;  // random_select
      if pool[page].pos != HOT {
        assert Idle(S().frames[page]);
        return Skip, Pick([page], -1);
      }
      var bottom, idx, path := RecursiveIterate(page, s, cut, loose);
      pick := Pick(path, idx);
      if bottom.None? {
        return Skip, pick;
      }
      ghost var c := bottom.value;
      assert pool[c].parent == SuperRoot ==> Idle(S().frames[c]);
      JudgedInWindow(s, logical, cut, loose, c, idx);
      JudgedInWindow(s, logical, cut, loose, c, -1);
      choice := Judge(pool[..], bottom.value, idx);
      assert Fatal(choice) ==> DeadlyAt(S(), c);
    }

    /** The cooling branch of a pass. */
    method CoolChosen(f: FrameId, g: FrameId, i: nat, ghost s: State, ghost cut: Option<Cutting>,
                      ghost loose: set<FrameId>)
      returns (ghost s1: State)
      requires Shows(s, cut, loose) && Choosable(s, cut, f, g, i) && f !in loose
      modifies Repr()
      ensures Wired() && logical == old(logical) && dynamic == old(dynamic)
      ensures backend.curOffset == old(backend.curOffset)
      ensures Shows(s1, cut, loose) && Kept(s, s1, logical, cut) && CooledOne(s, s1, f)
      ensures var w, b := old(S()), hashTable.BucketIdx(old(pool[f].remote));
              && Booked(w, b) && f < |w.frames| && g < |w.frames| && f != g
              && w.frames[g].node.Inner? && i < |w.frames[g].node.children| && S() == Sampled(w, f, g, i, b)
    {
      hide Sampled, Sound, Kept, CooledOne, Shown, Choosable, LooseOk, Shows, FiledRight, Plain;
      ghost var b;
      b, s1 := ReadyToCool(f, g, i, s, cut, loose);
      CoolDown(f, g, i);
      NowShows(s1, cut, loose);
    }

    /** What the cooling branch may count on, and the sound state it comes to. */
    lemma ReadyToCool(f: FrameId, g: FrameId, i: nat, s: State, cut: Option<Cutting>, loose: set<FrameId>)
      returns (b: nat, s1: State)
      requires Shows(s, cut, loose) && Choosable(s, cut, f, g, i) && f !in loose
      ensures Wired() && !gaveUp && f < pool.Length && g < pool.Length && f != g
      ensures pool[g].node.Inner? && i < |pool[g].node.children|
      ensures pool[f].bitmap == {} && Plain(pool[f].node) && pool[f].remote in backend.disk
      ensures b == hashTable.BucketIdx(pool[f].remote) && FiledRight(S(), b, f) && Booked(S(), b)
      ensures Sound(s1, logical, cut) && Kept(s, s1, logical, cut) && CooledOne(s, s1, f) && LooseOk(cut, loose)
              && Shown(s1, cut, loose) == Sampled(S(), f, g, i, b)
    {
      hide Sampled, Kept, CooledOne;
      b := hashTable.BucketIdx(pool[f].remote);
      ShownReady(s, logical, cut, loose, f, g, i, b);
      ChosenShown(s, logical, cut, loose, f, g, i, b);
      s1 := Sampled(s, f, g, i, b);
    }

    lemma NowShows(s: State, cut: Option<Cutting>, loose: set<FrameId>)
      requires Wired() && !gaveUp && Sound(s, logical, cut) && LooseOk(cut, loose) && S() == Shown(s, cut, loose)
      ensures Shows(s, cut, loose)
    {
    }

    /** The branch for a page its parent has no slot for: it loses the parent pointer. */
    method ClearParent(f: FrameId, ghost s: State, ghost cut: Option<Cutting>, ghost loose: set<FrameId>)
      requires Shows(s, cut, loose) && cut.Some? && Tagged(f) in cut.value.moved && f < pool.Length && Lively(pool[f])
      modifies pool
      ensures Shows(s, cut, loose + {f}) && (old(Barren(S())) ==> Barren(S()))
      ensures S() == Disowned(old(S()), f)
    {
      ghost var w := S();
      SetFrame(f, pool[f].(parent := NoParent));
      FreedOneMore(Seen(s, cut), loose, f);
      if Barren(w) {
        ghost var x: FrameId :| x < |w.frames| && Idle(w.frames[x]);
        assert Idle(S().frames[x]);
      }
    }

    lemma DrawnBooked(s: State, cut: Option<Cutting>, loose: set<FrameId>, pick: Pick)
      requires Shows(s, cut, loose) && Drawn(S(), pick)
      ensures pick.path != [] && Bottom(pick) < |S().frames|
      ensures Booked(S(), BucketOf()(S().frames[Bottom(pick)].remote))
    {
      CoolPagesInPool(s, {}, BucketOf()(S().frames[Bottom(pick)].remote));
    }

    /** As many picks as a call has tries have cooled nothing and come to this. */
    ghost predicate WorkedInVain()
      reads this, backend, allocator, hashTable, pageTable, pool
    {
      exists w, picks {:trigger InVain(w, picks, BucketOf())} ::
        |picks| == MAX_TRIES - 1 && InVain(w, picks, BucketOf()) == Some(S())
    }

    /** Why the sampler has not cooled a page: it gave up, or the pass at hand would do harm. */
    ghost predicate Fruitless(pace: Pace, s: State, cut: Option<Cutting>)
      reads Repr()
    {
      if pace.Tried? then Barren(S()) && WorkedInVain() else Harmful(s, cut) && Deadly(S())
    }

    /** One pass through sample_page's loop: it cools page c, or cools nothing, or would do harm. */
    method SampleOnce(ghost s: State, ghost cut: Option<Cutting>, ghost loose: set<FrameId>)
      returns (pace: Pace, ghost c: FrameId, ghost s1: State, ghost loose1: set<FrameId>, ghost pick: Pick)
      requires Shows(s, cut, loose)
      modifies Repr()
      ensures Drawn(old(S()), pick) && pick.path != [] && Bottom(pick) < |old(S()).frames|
      ensures Booked(old(S()), BucketOf()(old(S()).frames[Bottom(pick)].remote))
      ensures var w, b := old(S()), BucketOf()(old(S()).frames[Bottom(pick)].remote);
              match pace
              case Tried => Try(w, pick, b) == Again(S())
              case Cooled => Try(w, pick, b) == Cools(S(), c) && Tagged(c) !in MovedBy(cut)
              case Harmed => S() == w && (Try(w, pick, b).Aborts? ||
                                          (Try(w, pick, b).Cools? && Tagged(Try(w, pick, b).page) in MovedBy(cut)))
      ensures Shows(s1, cut, loose1) && loose <= loose1 && logical == old(logical) && dynamic == old(dynamic)
      ensures backend.curOffset == old(backend.curOffset)
      ensures pace.Cooled? ==> Kept(s, s1, logical, cut) && CooledOne(s, s1, c)
      ensures !pace.Cooled? ==> s1 == s && (old(Barren(S())) ==> Barren(S()))
      ensures pace.Tried? ==> Barren(S()) || |loose| < |loose1|
      ensures pace.Harmed? ==> Harmful(s, cut) && Deadly(S())
    {
      hide Shows, Pass, Try, Chosen, Drawn, Sampled, Kept, CooledOne, Choosable;
      c, s1, loose1 := 0, s, loose;
      var choice;
      choice, pick := SelectFrame(s, cut, loose);
      DrawnBooked(s, cut, loose, pick);
      ChosenTry(S(), pick, BucketOf()(S().frames[Bottom(pick)].remote));
      match choice {
        case Skip => pace := Tried;
        case Stale(f) =>
          ClearParent(f, s, cut, loose);
          loose1 := loose + {f};
          pace := Tried;
        case Cool(f, g, i) =>
          s1 := CoolChosen(f, g, i, s, cut, loose);
          c, pace := f, Cooled;
        case _ => pace := Harmed;
      }
    }

    /** One call of sample_page: cools page c and no other; or gives up on the thousandth try, when the
        program leaves the process; or comes to a pass that would do harm, where the model stops. */
    method SamplePage(ghost s: State, ghost cut: Option<Cutting>, ghost loose: set<FrameId>)
      returns (pace: Pace, ghost c: FrameId, ghost s1: State, ghost loose1: set<FrameId>, ghost picks: seq<Pick>)
      requires Shows(s, cut, loose)
      modifies Repr()
      ensures Stands(s1, cut, loose1) && logical == old(logical) && dynamic == old(dynamic)
      ensures backend.curOffset == old(backend.curOffset)
      ensures if pace.Tried? then |picks| == MAX_TRIES - 1 && InVain(old(S()), picks, BucketOf()) == Some(S())
              else |picks| < MAX_TRIES && Call(old(S()), MovedBy(cut), picks, BucketOf()) ==
                                          if pace.Cooled? then Returned(S()) else Wrong
      ensures pace.Tried? <==> gaveUp
      ensures pace.Cooled? ==> Kept(s, s1, logical, cut) && CooledOne(s, s1, c)
      ensures !pace.Cooled? ==> s1 == s && Fruitless(pace, s1, cut)
    {
      hide Kept, CooledOne, Harmful, Sound, Barren, InVain, Call, Try, LooseOk;
      var counter := 0;
      s1, loose1, picks := s, loose, [];
      NoneInVain(S(), BucketOf());
      while true
        invariant counter < MAX_TRIES && s1 == s && Shows(s, cut, loose1)
        invariant |picks| == counter && InVain(old(S()), picks, BucketOf()) == Some(S())
        invariant backend.curOffset == old(backend.curOffset)
        invariant logical == old(logical) && dynamic == old(dynamic)
        invariant Barren(S()) || counter <= |loose1|
        decreases MAX_TRIES - counter
      {
        counter := counter + 1;
        if counter >= MAX_TRIES {
          LooseFew(s, logical, cut, loose1);
          gaveUp := true;
          return Tried, 0, s, loose1, picks;
        }
        ghost var w, pick := S(), Pick([], -1);
        pace, c, s1, loose1, pick := SampleOnce(s, cut, loose1);
        LastPick(old(S()), MovedBy(cut), picks, w, pick, BucketOf());
        picks := picks + [pick];
        if !pace.Tried? {
          return;
        }
      }
    }

    /** The parent's slot gets the address back and loses its bit; the frame loses its parent. */
    method Unhook(f: FrameId, g: FrameId, i: nat)
      requires f < pool.Length && g < pool.Length && f != g && pool[g].node.Inner? && i < |pool[g].node.children|
      modifies pool
      ensures S() == Unhooked(old(S()), f, g, i)
    {
      ghost var s := S();
      var n := pool[g].node;
      pool[g] := pool[g].(node := n.(children := n.children[i := Untagged(pool[f].remote)]),
                          bitmap := pool[g].bitmap - {i});
      pool[f] := pool[f].(parent := NoParent);
      assert pool[..] == Unhooked(s, f, g, i).frames;
    }

    /** A clean frame leaves the tree for the cooling table, whose bucket may give one up. */
    method Retire(f: FrameId, g: FrameId, i: nat)
      requires Wired() && f < pool.Length && g < pool.Length && f != g
      requires pool[g].node.Inner? && i < |pool[g].node.children|
      requires FiledRight(S(), hashTable.BucketIdx(pool[f].remote), f)
      modifies this`localPageSet, hashTable, hashTable.Parts, pageTable`contents, pageTable.table, pool
      ensures Wired() && S() == Retired(old(S()), f, g, i, hashTable.BucketIdx(old(pool[f].remote)))
    {
      ghost var s, b := S(), hashTable.BucketIdx(pool[f].remote);
      Unhook(f, g, i);
      UnhookAndChill(s, f, g, i, b);
      UnhookKeepsFiled(s, f, g, i, b);
      var evicted := Chill(f);
      if evicted.Some? {
        InsertLocalSet(evicted.value);
      }
    }

    /** A dirty page without swizzled children goes to the backend. */
    method WriteIfDirty(f: FrameId)
      requires Wired() && f < pool.Length && pool[f].bitmap == {} && Plain(pool[f].node)
               && pool[f].remote in backend.disk
      modifies backend`disk, backend.store, pool
      ensures Wired() && S() == Cleaned(old(S()), f)
    {
      if pool[f].dirty {
        PlainUnswizzled(S(), pool[f].node);
        RemoteWrite(f);
      }
    }

    /** The part of sample_page after a frame has been chosen. */
    method CoolDown(f: FrameId, g: FrameId, i: nat)
      requires Wired() && f < pool.Length && g < pool.Length && f != g
      requires pool[g].node.Inner? && i < |pool[g].node.children|
      requires pool[f].bitmap == {} && Plain(pool[f].node) && pool[f].remote in backend.disk
      requires FiledRight(S(), hashTable.BucketIdx(pool[f].remote), f)
      modifies Repr()
      ensures Wired() && logical == old(logical) && gaveUp == old(gaveUp) && dynamic == old(dynamic)
      ensures backend.curOffset == old(backend.curOffset)
      ensures S() == Sampled(old(S()), f, g, i, hashTable.BucketIdx(old(pool[f].remote)))
    {
      hide Inv;
      WriteIfDirty(f);
      Retire(f, g, i);
    }

    /** sample_multiple_pages: cools that many pages, or gives up trying, or comes to a pass that would
        do harm. */
    method SampleMultiplePages(count: nat, ghost s: State, ghost cut: Option<Cutting>, ghost loose: set<FrameId>)
      returns (pace: Pace, ghost s1: State, ghost loose1: set<FrameId>, ghost calls: seq<seq<Pick>>)
      requires Shows(s, cut, loose)
      modifies Repr()
      ensures Stands(s1, cut, loose1) && logical == old(logical) && dynamic == old(dynamic)
      ensures backend.curOffset == old(backend.curOffset)
      ensures WithinTries(calls)
      ensures match pace
              case Cooled => |calls| == count && Calls(old(S()), MovedBy(cut), calls, BucketOf()) == Returned(S())
              case Tried => |calls| < count
              case Harmed => |calls| <= count && Calls(old(S()), MovedBy(cut), calls, BucketOf()) == Wrong
      ensures Kept(s, s1, logical, cut) && Residents(s1) <= Residents(s)
      ensures pace.Tried? <==> gaveUp
      ensures if pace.Cooled? then |Residents(s1)| + count == |Residents(s)|
              else |Residents(s)| < |Residents(s1)| + count && Fruitless(pace, s1, cut)
    {
      hide Kept, Sound, Fruitless, Calls, Call, WithinTries, MovedBy, Shown, LooseOk;
      s1, loose1, calls := s, loose, [];
      KeptItself(s, logical, cut);
      NoCalls(S(), MovedBy(cut), BucketOf());
      var left := count;
      while left > 0
        invariant WithinTries(calls) && |calls| == count - left && backend.curOffset == old(backend.curOffset)
        invariant Calls(old(S()), MovedBy(cut), calls, BucketOf()) == Returned(S())
        invariant 0 <= left <= count && logical == old(logical) && dynamic == old(dynamic)
        invariant Shows(s1, cut, loose1) && Kept(s, s1, logical, cut) && Residents(s1) <= Residents(s)
        invariant |Residents(s1)| + (count - left) == |Residents(s)|
      {
        ghost var before, w := s1, S();
        ghost var c, picks;
        pace, c, s1, loose1, picks := SamplePage(s1, cut, loose1);
        if pace.Tried? {
          return;
        }
        CallsThen(old(S()), MovedBy(cut), calls, w, picks, BucketOf());
        calls := calls + [picks];
        if pace.Harmed? {
          return;
        }
        KeptTransitive(s, before, s1, logical, cut);
        left := left - 1;
      }
      pace := Cooled;
    }

    /** The sampler was called for because no frame was at hand, and has not cooled all its pages yet. */
    ghost predicate Starved(s: State, cut: Option<Cutting>)
      reads this
    {
      exists before :: StarvedFrom(before, s, cut)
    }

    ghost predicate StarvedFrom(before: State, s: State, cut: Option<Cutting>)
      reads this
    {
      && NothingAtHand(before) && Sound(before, logical, cut) && Kept(before, s, logical, cut)
      && |Residents(before)| < |Residents(s)| + NUM_PAGES_TO_SAMPLE
    }

    /** A frame for the caller, from the sound state s1 to s2, or none. */
    ghost predicate Taken(page: Option<FrameId>, s: State, s1: State, s2: State, cut: Option<Cutting>,
                          loose: set<FrameId>)
      reads Repr()
    {
      page.Some? ==>
        && Wired() && !gaveUp && Kept(s, s1, logical, cut) && Takes(s1, s2, page.value) && s2.frames == s1.frames
        && LooseOk(cut, loose) && S() == Shown(s2, cut, loose)
    }

    lemma TakenKept(page: Option<FrameId>, s: State, s1: State, s2: State, cut: Option<Cutting>, loose: set<FrameId>)
      requires Taken(page, s, s1, s2, cut, loose) && page.Some?
      ensures Kept(s, s1, logical, cut)
    {
    }

    /** TakeWithoutSampling, as the sound state behind the pool sees it. */
    method TakeAtHand(ghost s: State, ghost cut: Option<Cutting>, ghost loose: set<FrameId>)
      returns (page: Option<FrameId>, ghost s2: State)
      requires Shows(s, cut, loose)
      modifies Books()
      ensures Wired() && logical == old(logical) && !gaveUp
      ensures Taken(page, s, s, s2, cut, loose) && (page.Some? ==> Takes(old(S()), S(), page.value))
      ensures page.None? ==> S() == old(S()) && NothingAtHand(S())
    {
      ShownPlaces(s, logical, cut, loose);
      KeptItself(s, logical, cut);
      page := TakeWithoutSampling();
      s2 := S().(frames := s.frames);
      if page.Some? {
        TakesShown(s, cut, loose, S(), page.value);
      }
    }

    /** What sampling may have put into local_page_set. */
    method TakeRecycled(ghost s: State, ghost cut: Option<Cutting>, ghost loose: set<FrameId>)
      returns (page: Option<FrameId>, ghost s2: State)
      requires Shows(s, cut, loose) && dynamic
      modifies this`localPageSet
      ensures Wired() && !gaveUp && Taken(page, s, s, s2, cut, loose)
      ensures if old(localPageSet) == [] then page.None? && S() == old(S())
              else page == Some(old(localPageSet)[|old(localPageSet)| - 1]) && S() == TakeFree(old(S()))
    {
      s2 := s;
      if localPageSet != [] {
        KeptItself(s, logical, cut);
        page := Some(localPageSet[|localPageSet| - 1]);
        localPageSet := localPageSet[..|localPageSet| - 1];
        s2 := S().(frames := s.frames);
        TakesShown(s, cut, loose, S(), page.value);
      } else {
        page := None;
      }
    }

    /** try_get_empty_page: a frame for the caller, or two pages cooled for the next try. */
    method TryGetEmptyPage(ghost s: State, ghost cut: Option<Cutting>, ghost loose: set<FrameId>)
      returns (page: Option<FrameId>, pace: Pace, ghost s1: State, ghost s2: State, ghost loose1: set<FrameId>)
      requires Shows(s, cut, loose)
      modifies Repr()
      ensures Wired() && logical == old(logical) && Taken(page, s, s1, s2, cut, loose1)
      ensures backend.curOffset == old(backend.curOffset)
      ensures pace.Cooled? ==> Turn(old(S()), MovedBy(cut), BucketOf(), page, S())
      ensures (pace.Tried? <==> gaveUp) && (!pace.Cooled? ==> page.None?)
      ensures page.None? ==> Stands(s1, cut, loose1) && Kept(s, s1, logical, cut) && dynamic
      ensures page.None? ==>
                if pace.Cooled? then |Residents(s1)| + NUM_PAGES_TO_SAMPLE == |Residents(s)|
                else Starved(s1, cut) && Fruitless(pace, s1, cut)
      ensures !NothingAtHand(old(S())) ==> page.Some? && s1 == s
    {
      hide Kept, Sound, Fruitless, Turn, Calls, WithinTries, MovedBy, Takes, Wired;
      page, s2 := TakeAtHand(s, cut, loose);
      s1, loose1, pace := s, loose, Cooled;
      if page.Some? {
        TurnTook(old(S()), MovedBy(cut), BucketOf(), page.value, S());
        return;
      }
      ghost var calls;
      pace, s1, loose1, calls := SampleMultiplePages(NUM_PAGES_TO_SAMPLE, s, cut, loose);
      if !pace.Cooled? {
        assert StarvedFrom(s, s1, cut);
        return None, pace, s1, s2, loose1;
      }
      ghost var v := S();
      page, s2 := TakeRecycled(s1, cut, loose1);
      TurnCooled(old(S()), MovedBy(cut), BucketOf(), calls, v, page, S());
    }

    /** get_empty_page: comes back with a frame no one uses, unless the sampler gave up or came to a pass
        that would do harm. It cannot loop forever, since every failed try cools two pages. */
    method GetEmptyPage(ghost s: State, ghost cut: Option<Cutting>, ghost loose: set<FrameId>)
      returns (page: Option<FrameId>, pace: Pace, ghost s1: State, ghost s2: State, ghost loose1: set<FrameId>)
      requires Shows(s, cut, loose)
      modifies Repr()
      ensures Wired() && logical == old(logical) && Taken(page, s, s1, s2, cut, loose1)
      ensures backend.curOffset == old(backend.curOffset)
      ensures page.Some? ==> Obtained(old(S()), MovedBy(cut), BucketOf(), page.value, S())
      ensures (pace.Tried? <==> gaveUp) && (page.Some? <==> pace.Cooled?)
      ensures page.None? ==>
                Stands(s1, cut, loose1) && Kept(s, s1, logical, cut) && dynamic && Starved(s1, cut)
                && Fruitless(pace, s1, cut)
      ensures !NothingAtHand(old(S())) ==> page.Some? && s1 == s
    {
      hide Kept, Sound, Fruitless, Turn, EmptyTurns;
      s1, s2, loose1 := s, s, loose;
      KeptItself(s, logical, cut);
      ghost var turns := [S()];
      NoTurnYet(S(), MovedBy(cut), BucketOf());
      while true
        invariant EmptyTurns(old(S()), MovedBy(cut), BucketOf(), turns, S())
        invariant backend.curOffset == old(backend.curOffset)
        invariant (s1 == s && S() == old(S())) || NothingAtHand(old(S()))
        invariant logical == old(logical) && Shows(s1, cut, loose1) && Kept(s, s1, logical, cut)
        decreases |Residents(s1)|
      {
        ghost var before, w := s1, S();
        page, pace, s1, s2, loose1 := TryGetEmptyPage(s1, cut, loose1);
        if page.Some? { TakenKept(page, before, s1, s2, cut, loose1); }
        KeptTransitive(s, before, s1, logical, cut);
        if page.Some? || !pace.Cooled? {
          return;
        }
        OneMoreTurn(old(S()), MovedBy(cut), BucketOf(), turns, w, S());
        turns := turns + [S()];
      }
    }

    /** cache_insert: the page gets a frame, PINNED, and the page table learns of it. s1 is the
        state in which the frame was obtained. */
    method CacheInsert(node: Page, parent: Parent) returns (page: Option<FrameId>, ghost s1: State)
      requires Valid()
      modifies Repr()
      ensures Wired() && logical == old(logical) && backend.curOffset == old(backend.curOffset)
      ensures page.Some? ==> page.value < pool.Length && Inv(s1, logical, {page.value}) && Calmer(old(S()), s1)
                             && |s1.frames| == pool.Length
                             && S() == Admit(s1, page.value, node.(pos := PINNED, parent := parent))
      ensures page.Some? ==> Obtained(old(S()), [], BucketOf(), page.value, s1)
      ensures !NothingAtHand(old(S())) ==> page.Some? && Takes(old(S()), s1, page.value)
      ensures page.None? <==> gaveUp
      ensures page.None? ==>
                dynamic && Barren(S()) && WorkedInVain() && Stands(S(), None, {}) && Starved(S(), None)
    {
      ghost var s := S();
      ghost var s0, loose;
      var pace;
      FreedNone(s);
      page, pace, s0, s1, loose := GetEmptyPage(s, None, {});
      assert loose == {};
      FreedNone(s0);
      FreedNone(s1);
      if page.Some? {
        TakesKeeps(s0, s1, logical, page.value);
        QuietCalms(s0, s1);
        CalmerTransitive(s, s0, s1);
        Place(page.value, node, parent);
      }
    }

    /** The rest of cache_insert, once it has its frame. */
    method Place(p: FrameId, node: Page, parent: Parent)
      requires Wired() && p < pool.Length
      modifies pool, pageTable`contents, pageTable.table
      ensures Wired() && S() == Admit(old(S()), p, node.(pos := PINNED, parent := parent))
    {
      SetFrame(p, node.(pos := PINNED, parent := parent));
      var isNew, was := pageTable.Upsert(node.remote, p);
    }

    /** update_all_parent_ptr: every frame that frame p's slots name gets p as its parent; a leaf has none. */
    method UpdateAllParentPtr(p: FrameId)
      requires Wired() && p < pool.Length
      requires pool[p].node.Inner? ==> forall sl | sl in pool[p].node.children && sl.Tagged? :: sl.frame < pool.Length
      modifies pool
      ensures Wired()
      ensures S() == if old(pool[p].node.Leaf?) then old(S())
                     else old(S()).(frames := Adopt(old(S()).frames, old(pool[p].node.children), p))
    {
      if pool[p].node.Leaf? {
        return;
      }
      ghost var s := S();
      var cs := pool[p].node.children;
      var i := 0;
      assert S() == s.(frames := Adopt(s.frames, cs[..0], p));
      while i < |cs|
        invariant i <= |cs| && Wired() && S() == s.(frames := Adopt(s.frames, cs[..i], p))
      {
        assert cs[i] in cs;
        AdoptOne(s.frames, cs, i, p);
        if cs[i].Tagged? {
          SetFrame(cs[i].frame, pool[cs[i].frame].(parent := InPool(p)));
        }
        i := i + 1;
      }
      assert cs[..i] == cs;
    }

    /** flush_all: every dirty frame is unswizzled into a buffer and written back. */
    method FlushAll()
      requires Valid()
      modifies backend`disk, backend.store, pool
      ensures Valid() && logical == old(logical)
      ensures forall f | 0 <= f < pool.Length :: pool[f] == old(pool[f]).(dirty := false)
      ensures forall a | a in logical :: a in backend.disk && backend.disk[a].remote == a
                                         && backend.disk[a].node == Lift(logical[a])
      ensures backend.disk.Keys == old(backend.disk.Keys)
    {
      ghost var s := S();
      var i := 0;
      while i < pool.Length
        invariant i <= pool.Length && Valid() && logical == old(logical) && backend.disk.Keys == s.disk.Keys
        invariant forall f | 0 <= f < i :: pool[f] == s.frames[f].(dirty := false)
        invariant forall f | i <= f < pool.Length :: pool[f] == s.frames[f]
      {
        FlushStep(i);
        i := i + 1;
      }
      CleanMeansStored(S(), logical);
    }

    /** fully_unswizzle on a copy of frame f: slot by slot, a tagged child gives way to its address. */
    method FullyUnswizzle(f: FrameId) returns (node: Node<Slot>)
      requires f < pool.Length && SlotsSound(S(), f)
      ensures node == Unswizzle(S(), pool[f].node)
    {
      node := pool[f].node;
      if node.Leaf? {
        return;
      }
      ghost var s, n, to := S(), node, Unswizzle(S(), node);
      var i := 0;
      while i < |node.children|
        invariant node.Inner? && |node.children| == |n.children| == |to.children|
        invariant node == n.(children := node.children)
        invariant i <= |n.children| && forall j | 0 <= j < i :: node.children[j] == to.children[j]
        invariant forall j | i <= j < |n.children| :: node.children[j] == n.children[j]
      {
        assert SlotSound(s, f, i);
        if node.children[i].Tagged? {
          assert i in pool[f].bitmap;
          node := node.(children := node.children[i := Untagged(pool[node.children[i].frame].remote)]);
        }
        i := i + 1;
      }
      assert node.children == to.children;
    }

    /** flush_all's body for one dirty frame. */
    method FlushFrame(i: FrameId)
      requires Wired() && i < pool.Length && SlotsSound(S(), i) && pool[i].remote in backend.disk
      modifies backend`disk, backend.store, pool
      ensures Wired() && S() == WriteBack(old(S()), i)
    {
      var node := FullyUnswizzle(i);
      var buffer := Page(pool[i].remote, {}, NoParent, REMOTE, false, node);
      WritePage(buffer.remote, buffer);
      SetFrame(i, pool[i].(dirty := false));
    }

    /** One turn of flush_all's loop. */
    method FlushStep(i: FrameId)
      requires Valid() && i < pool.Length
      modifies backend`disk, backend.store, pool
      ensures Valid() && backend.disk.Keys == old(backend.disk.Keys)
      ensures pool[..] == old(pool[..])[i := old(pool[i]).(dirty := false)]
    {
      if pool[i].dirty {
        FlushReady(S(), logical, i);
        FlushFrame(i);
      } else {
        assert pool[i] == pool[i].(dirty := false);
      }
    }

    method InsertLocalSet(f: FrameId)
      requires Wired() && f < pool.Length
      modifies this`localPageSet, pool
      ensures Wired() && S() == Release(old(S()), f)
    {
      ghost var s := S();
      pool[f] := pool[f].(pos := LOCAL);
      localPageSet := localPageSet + [f];
      assert pool[..] == s.frames[f := s.frames[f].(pos := LOCAL)];
    }
  }

  /** Taking a frame does not look at page bodies or parents, so the window makes no difference to it. */
  lemma TakesShown(s: State, cut: Option<Cutting>, loose: set<FrameId>, w: State, p: FrameId)
    requires cut.Some? ==>
               var f := cut.value.frame;
               f < |s.frames| && NodeOk(s.frames[f].node) && s.frames[f].node.Full()
    requires Takes(Shown(s, cut, loose), w, p)
    ensures Takes(s, w.(frames := s.frames), p) && w == Shown(w.(frames := s.frames), cut, loose)
  {
    TakesCommutes(s, Shown(s, cut, loose), w, p);
  }

  lemma AdoptOne(frames: seq<Page>, cs: seq<Slot>, i: nat, p: FrameId)
    requires i < |cs| && (cs[i].Tagged? ==> cs[i].frame < |frames|)
    ensures var before := Adopt(frames, cs[..i], p);
            Adopt(frames, cs[..i + 1], p) ==
            if cs[i].Tagged? then before[cs[i].frame := before[cs[i].frame].(parent := InPool(p))] else before
  {
    assert cs[..i + 1] == cs[..i] + [cs[i]];
  }

  lemma FlushReady(s: State, st: Store, f: FrameId)
    requires Inv(s, st, {}) && f < |s.frames| && s.frames[f].dirty
    ensures SlotsSound(s, f) && s.frames[f].remote in s.disk
    ensures Inv(WriteBack(s, f), st, {}) && WriteBack(s, f).disk.Keys == s.disk.Keys
  {
    assert InTree(s, f) && FrameSound(s, f) && Mirrors(s, st, f);
    assert DiskSound(s, st, s.frames[f].remote);
    WriteBackKeeps(s, st, f, {});
  }

  /** With no dirty frame left, the backend alone holds the logical store. */
  lemma CleanMeansStored(s: State, st: Store)
    requires Inv(s, st, {}) && forall f | 0 <= f < |s.frames| :: !s.frames[f].dirty
    ensures forall a | a in st :: a in s.disk && s.disk[a].remote == a && s.disk[a].node == Lift(st[a])
  {
    forall a | a in st ensures a in s.disk && s.disk[a].remote == a && s.disk[a].node == Lift(st[a]) {
      assert DiskSound(s, st, a);
    }
  }
}
