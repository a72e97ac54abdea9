/** The warm-up phase of the pool (state 0 of include/cache/LeanStoreCache.h): until every frame
    has been handed out none is ever cooled, and with a frame for every backend page that moment
    never comes while a frame is still needed. */
module WarmUp {
  import opened Types
  import opened Node
  import opened BPlusTree
  import opened CacheState
  import opened CacheSteps
  import opened LoadSteps
  import opened SplitSteps
  import opened TreeDescent
  import opened TreeGrowth
  import opened CacheFacts

  /** The frames handed out are exactly the resident ones. */
  ghost predicate Warm(s: State) {
    && s.free == [] && (forall b | 0 <= b < |s.cool| :: s.cool[b] == [])
    && forall f: FrameId {:trigger InTree(s, f)} | f < s.head :: InTree(s, f)
  }

  /** Addresses of the first pageNums backend pages, the reserved page 0 left out. */
  ghost predicate WithinPages(s: State, pageNums: nat) {
    forall a | a in s.disk :: a.nodeID == 0 && a.offset % PAGE_SIZE == 0 && PAGE_SIZE <= a.offset < pageNums * PAGE_SIZE
  }

  function PageNumber(a: GlobalAddress): nat {
    a.offset / PAGE_SIZE
  }

  lemma PageNumberIsUnique(s: State, pageNums: nat, a: GlobalAddress, b: GlobalAddress)
    requires WithinPages(s, pageNums) && a in s.disk && b in s.disk
    ensures PageNumber(a) == PageNumber(b) ==> a == b
    ensures 1 <= PageNumber(a) < pageNums
  {
    assert a.offset == PAGE_SIZE * PageNumber(a) && b.offset == PAGE_SIZE * PageNumber(b);
  }

  /** The page numbers of the frames handed out, and that of one more page. */
  function NumbersInUse(s: State, a: GlobalAddress): seq<nat>
    requires s.head <= |s.frames|
  {
    seq(s.head, f requires 0 <= f < s.head => PageNumber(s.frames[f].remote)) + [PageNumber(a)]
  }

  lemma NumbersApart(s: State, st: Store, pageNums: nat, a: GlobalAddress)
    requires Inv(s, st, {}) && Warm(s) && WithinPages(s, pageNums) && a in s.disk && NotResident(s, a)
    ensures Distinct(NumbersInUse(s, a))
    ensures forall n | n in NumbersInUse(s, a) :: 1 <= n < pageNums
  {
    var xs := NumbersInUse(s, a);
    forall f: FrameId | f < s.head
      ensures var x := s.frames[f].remote; x in s.disk && x != a && x in s.pages && s.pages[x] == f
    {
      assert InTree(s, f) && Mirrors(s, st, f);
      assert DiskSound(s, st, s.frames[f].remote);
    }
    forall i, j | 0 <= i < j < |xs| ensures xs[i] != xs[j] {
      PageNumberIsUnique(s, pageNums, s.frames[i].remote, if j == s.head then a else s.frames[j].remote);
    }
    forall n | n in xs ensures 1 <= n < pageNums {
      var i :| 0 <= i < |xs| && xs[i] == n;
      PageNumberIsUnique(s, pageNums, if i == s.head then a else s.frames[i].remote, a);
    }
  }

  /** Numbers below n are at most n many. */
  lemma {:induction false} BoundedCount(xs: set<nat>, n: nat)
    requires forall x | x in xs :: 1 <= x <= n
    ensures |xs| <= n
  {
    if n > 0 {
      assert forall x | x in xs - {n} :: 1 <= x <= n - 1;
      BoundedCount(xs - {n}, n - 1);
      assert xs <= (xs - {n}) + {n};
    } else {
      assert xs == {};
    }
  }

  /** While the pool warms up a page that is not resident finds a frame that was never handed out, if the
      pool has a frame for every page the backend can allocate. */
  lemma FrameForEveryPage(s: State, st: Store, pageNums: nat, a: GlobalAddress)
    requires Inv(s, st, {}) && Warm(s) && WithinPages(s, pageNums) && pageNums <= |s.frames| + 1
    requires a in s.disk && NotResident(s, a)
    ensures !s.dynamic
  {
    var xs := NumbersInUse(s, a);
    NumbersApart(s, st, pageNums, a);
    DistinctCount(xs);
    BoundedCount(Elements(xs), pageNums - 1);
  }

  /** A frame taken while warming up and put to use keeps the pool warm. */
  lemma WarmerByOne(s: State, s1: State, p: FrameId, s': State)
    requires Warm(s) && !s.dynamic && Takes(s, s1, p)
    requires s'.free == s1.free && s'.cool == s1.cool && s'.head == s1.head && InTree(s', p)
    requires forall f: FrameId {:trigger InTree(s, f)} | InTree(s, f) :: InTree(s', f)
    ensures Warm(s')
  {
    forall f: FrameId | f < s'.head ensures InTree(s', f) {
      assert f < s.head ==> InTree(s, f);
    }
  }

  /** Page bodies and the backend have no part in it. */
  lemma AsWarm(s: State, s': State)
    requires Warm(s) && s'.free == s.free && s'.cool == s.cool && s'.head == s.head
    requires forall f: FrameId {:trigger InTree(s, f)} | InTree(s, f) :: InTree(s', f)
    ensures Warm(s')
  {
    forall f: FrameId | f < s'.head ensures InTree(s', f) {
      assert InTree(s, f);
    }
  }

  /** The same for a page that is not in the tree yet. */
  lemma FrameForNewPage(s: State, st: Store, pageNums: nat, b: GlobalAddress)
    requires Inv(s, st, {}) && Warm(s) && WithinPages(s, pageNums) && pageNums <= |s.frames| + 1
    requires b in s.disk && b !in st
    ensures !s.dynamic
  {
    forall f: FrameId | InTree(s, f) ensures s.frames[f].remote != b {
      assert Mirrors(s, st, f);
    }
    FrameForEveryPage(s, st, pageNums, b);
  }

  // --- The steps that take a frame ---

  lemma MissIsWarm(s: State, s1: State, g: FrameId, i: nat, p: FrameId, buf: Page)
    requires Warm(s) && !s.dynamic && InTree(s, g) && Takes(Repin(s, g, PINNED), s1, p) && p < |s1.frames| && g != p
    requires s1.frames[g].node.Inner? && i < |s1.frames[g].node.children|
    ensures Warm(Loaded(s1, g, i, p, buf))
  {
    AsWarm(s, Repin(s, g, PINNED));
    WarmerByOne(Repin(s, g, PINNED), s1, p, Loaded(s1, g, i, p, buf));
  }

  lemma SplitTopIsWarm(s: State, s1: State, f: FrameId, p: FrameId, b: GlobalAddress)
    requires Warm(s) && !s.dynamic && Takes(s, s1, p) && p < |s1.frames| && FullInner(s1, f)
             && NodeOk(s1.frames[f].node)
    ensures Warm(SplitInnerTop(s1, f, p, b))
  {
    WarmerByOne(s, s1, p, SplitInnerTop(s1, f, p, b));
  }

  lemma SplitUnderIsWarm(s: State, s1: State, f: FrameId, g: FrameId, p: FrameId, b: GlobalAddress)
    requires Warm(s) && !s.dynamic && Takes(s, s1, p) && CanHang(s1, f, g, p, b)
    ensures Warm(SplitInnerUnder(s1, f, g, p, b))
  {
    WarmerByOne(s, s1, p, SplitInnerUnder(s1, f, g, p, b));
  }

  lemma NewRootIsWarm(s: State, s1: State, p: FrameId, r: GlobalAddress, level: nat, sep: Key, f: FrameId, right: Slot)
    requires Warm(s) && !s.dynamic && Takes(s, s1, p) && p < |s1.frames|
    ensures Warm(NewRoot(s1, p, r, level, sep, f, right))
  {
    WarmerByOne(s, s1, p, NewRoot(s1, p, r, level, sep, f, right));
  }

  lemma LeafSplitIsWarm(s: State, f: FrameId, g: FrameId, b: GlobalAddress)
    requires Warm(s) && f < |s.frames| && NodeOk(s.frames[f].node) && s.frames[f].node.Full()
    requires g < |s.frames| && s.frames[g].node.Inner? && |s.frames[g].node.children| == |s.frames[g].node.keys| + 1
    ensures Warm(SplitLeafUnder(s, f, g, b))
  {
    AsWarm(s, SplitLeafUnder(s, f, g, b));
  }
}
