/** When the sampler can do its work (include/cache/LeanStoreCache.h, sample_page): on a sound pool some
    choice cools a page exactly when some resident frame is off the way from the root to the pinned
    frame; so it can whenever more frames are resident than the tree has levels. */
module SampleProgress {
  import opened Types
  import opened BPlusTree
  import opened CacheState
  import opened LoadSteps
  import opened CoolingTable
  import opened SampleSteps
  import opened SplitWindow
  import opened WindowRuns
  import opened TreeFacts
  import opened TreeDescent
  import opened CacheFacts
  import opened LeanStoreTree

  /** A sound pool whose one pinned frame is g; g is the root's frame when none is pinned. */
  ghost predicate Resting(s: State, st: Store, slot: Slot, root: GlobalAddress, height: nat, g: FrameId) {
    && Rooted(s, st, slot, root, height) && InTree(s, g) && (s.frames[g].pos == PINNED || g == slot.frame)
    && forall f: FrameId {:trigger InTree(s, f)} | InTree(s, f) && f != g :: s.frames[f].pos == HOT
  }

  /** Between two operations, and after load_child has pinned the parent. */
  lemma RestsBetween(s: State, st: Store, slot: Slot, root: GlobalAddress, height: nat, m: map<Key, Value>)
    requires TreeInv(s, st, slot, root, height, m)
    ensures Resting(s, st, slot, root, height, slot.frame)
  {
  }

  lemma RestsPinned(s: State, st: Store, slot: Slot, root: GlobalAddress, height: nat, m: map<Key, Value>, g: FrameId)
    requires TreeInv(s, st, slot, root, height, m) && InTree(s, g)
    ensures Resting(Repin(s, g, PINNED), st, slot, root, height, g)
  {
    RepinKeeps(s, st, g, PINNED, {});
    assert forall f: FrameId :: InTree(Repin(s, g, PINNED), f) <==> InTree(s, f);
  }

  /** Frame x lies on the way down to frame g. */
  ghost predicate OnTheWay(s: State, x: FrameId, g: FrameId) {
    exists path :: PathTo(s, x, path, g)
  }

  /** The pick ends a call of sample_page with a page cooled. */
  ghost predicate CoolsBy(s: State, bucket: GlobalAddress -> nat, pick: Pick) {
    && Walked(s, pick)
    && var b := bucket(s.frames[Bottom(pick)].remote);
    && Booked(s, b) && Pass(s, pick, b).Cools?
  }

  // --- Ways down ---

  lemma Joined(s: State, x: FrameId, p: seq<FrameId>, y: FrameId, q: seq<FrameId>, z: FrameId)
    requires PathTo(s, x, p, y) && PathTo(s, y, q, z)
    ensures PathTo(s, x, p + q[1..], z)
  {
    var r := p + q[1..];
    forall i | 0 < i < |r| ensures StepAt(s, r, i) {
      if i < |p| {
        assert StepAt(s, p, i);
      } else {
        assert StepAt(s, q, i - |p| + 1);
        assert r[i - 1] == q[i - |p|];
      }
    }
  }

  /** From every resident frame a way leads down to one without swizzled children. */
  lemma {:induction false} WayDown(s: State, st: Store, x: FrameId) returns (d: FrameId, path: seq<FrameId>)
    requires Inv(s, st, {}) && InTree(s, x)
    ensures InTree(s, d) && s.frames[d].bitmap == {} && PathTo(s, x, path, d)
    decreases s.frames[x].node.Level()
  {
    d, path := x, [x];
    if s.frames[x].bitmap != {} {
      var j :| j in s.frames[x].bitmap;
      BitLeads(s, st, None, x, j);
      var y := s.frames[x].node.children[j].frame;
      var rest;
      d, rest := WayDown(s, st, y);
      assert Hangs(s, x, y);
      assert PathTo(s, x, [x, y], y) by { assert StepAt(s, [x, y], 1); }
      Joined(s, x, [x, y], y, rest, d);
      path := [x, y] + rest[1..];
    }
  }

  /** A way drops one level a step. */
  lemma {:induction false} WayLength(s: State, st: Store, x: FrameId, p: seq<FrameId>, g: FrameId)
    requires Inv(s, st, {}) && InTree(s, g) && PathTo(s, x, p, g)
    ensures InTree(s, x) && s.frames[x].node.Level() == s.frames[g].node.Level() + |p| - 1
    decreases |p|
  {
    if |p| > 1 {
      assert StepAt(s, p, |p| - 1);
      HangsFromParent(s, st, {}, g, p[|p| - 2]);
      Shortened(s, x, p, g);
      WayLength(s, st, x, p[..|p| - 1], p[|p| - 2]);
    }
  }

  /** Ways of one length to the same frame start at the same frame. */
  lemma {:induction false} SameWay(s: State, x: FrameId, p: seq<FrameId>, y: FrameId, q: seq<FrameId>, g: FrameId)
    requires PathTo(s, x, p, g) && PathTo(s, y, q, g) && |p| == |q|
    ensures x == y
    decreases |p|
  {
    if |p| > 1 {
      assert StepAt(s, p, |p| - 1) && StepAt(s, q, |q| - 1);
      Shortened(s, x, p, g);
      Shortened(s, y, q, g);
      SameWay(s, x, p[..|p| - 1], y, q[..|q| - 1], p[|p| - 2]);
    }
  }

  /** The top of a way has a swizzled child, unless the way ends there. */
  lemma WayStarts(s: State, x: FrameId, p: seq<FrameId>, g: FrameId)
    requires PathTo(s, x, p, g)
    ensures x == g || (x < |s.frames| && s.frames[x].bitmap != {})
  {
    if |p| > 1 {
      assert StepAt(s, p, 1);
    }
  }

  // --- When a pick cools a page ---

  /** What a pick cools is off the way: it is not pinned, and no swizzled child hangs from it. */
  lemma CooledIsOffTheWay(s: State, st: Store, slot: Slot, root: GlobalAddress, height: nat, g: FrameId,
                          bucket: GlobalAddress -> nat, pick: Pick)
    requires Resting(s, st, slot, root, height, g) && CoolsBy(s, bucket, pick)
    ensures InTree(s, Bottom(pick)) && !OnTheWay(s, Bottom(pick), g)
  {
    var c := Bottom(pick);
    WalkEnds(s, st, None, pick);
    JudgedRight(s, st, None, c, pick.idx);
    TopFrame(s, st, slot, root, height, c);
    if OnTheWay(s, c, g) {
      var path :| PathTo(s, c, path, g);
      WayStarts(s, c, path, g);
    }
  }

  /** A way down from a frame off the way ends at a frame that can be cooled. */
  lemma OffTheWayCools(s: State, st: Store, slot: Slot, root: GlobalAddress, height: nat, g: FrameId,
                       bucket: GlobalAddress -> nat, x: FrameId) returns (pick: Pick)
    requires Resting(s, st, slot, root, height, g) && Hashes(s, bucket) && InTree(s, x) && !OnTheWay(s, x, g)
    ensures CoolsBy(s, bucket, pick)
  {
    var d, down := WayDown(s, st, x);
    if OnTheWay(s, d, g) {
      var rest :| PathTo(s, d, rest, g);
      Joined(s, x, down, d, rest, g);
    }
    OneTree(s, st, slot, root, height, g);
    TopFrame(s, st, slot, root, height, d);
    assert d != g by { assert PathTo(s, g, [g], g); }
    pick := Pick([d], -1);
    assert Walked(s, pick);
    JudgedRight(s, st, None, d, -1);
    CoolPagesInPool(s, {}, bucket(s.frames[d].remote));
  }

  /** Some pick cools a page exactly when some resident frame is off the way from the root to the
      pinned frame. */
  lemma SampleCanCoolIff(s: State, st: Store, slot: Slot, root: GlobalAddress, height: nat, g: FrameId,
                         bucket: GlobalAddress -> nat)
    requires Resting(s, st, slot, root, height, g) && Hashes(s, bucket)
    ensures (exists pick :: CoolsBy(s, bucket, pick)) <==> (exists x :: InTree(s, x) && !OnTheWay(s, x, g))
  {
    if pick :| CoolsBy(s, bucket, pick) {
      CooledIsOffTheWay(s, st, slot, root, height, g, bucket, pick);
    }
    if x :| InTree(s, x) && !OnTheWay(s, x, g) {
      var pick := OffTheWayCools(s, st, slot, root, height, g, bucket, x);
    }
  }

  // --- A bound in the height ---

  /** Frames on pairwise different levels below n are at most n many. */
  lemma {:induction false} OnePerLevel(s: State, xs: set<FrameId>, n: nat)
    requires forall x | x in xs :: x < |s.frames| && s.frames[x].node.Level() < n
    requires forall x, y | x in xs && y in xs && s.frames[x].node.Level() == s.frames[y].node.Level() :: x == y
    ensures |xs| <= n
    decreases n
  {
    if n == 0 {
      assert xs == {};
    } else if x :| x in xs && s.frames[x].node.Level() == n - 1 {
      OnePerLevel(s, xs - {x}, n - 1);
      assert xs == (xs - {x}) + {x};
    } else {
      OnePerLevel(s, xs, n - 1);
    }
  }

  /** With more resident frames than levels some frame is off the way. */
  lemma SomeOffTheWay(s: State, st: Store, slot: Slot, root: GlobalAddress, height: nat, g: FrameId)
    returns (x: FrameId)
    requires Resting(s, st, slot, root, height, g) && |Residents(s)| > height
    ensures InTree(s, x) && !OnTheWay(s, x, g)
  {
    if x' :| InTree(s, x') && !OnTheWay(s, x', g) {
      return x';
    }
    forall y | y in Residents(s) ensures y < |s.frames| && s.frames[y].node.Level() < height {
      TopFrame(s, st, slot, root, height, y);
    }
    forall y, z | y in Residents(s) && z in Residents(s) && s.frames[y].node.Level() == s.frames[z].node.Level()
      ensures y == z
    {
      var p :| PathTo(s, y, p, g);
      var q :| PathTo(s, z, q, g);
      WayLength(s, st, y, p, g);
      WayLength(s, st, z, q, g);
      SameWay(s, y, p, z, q, g);
    }
    OnePerLevel(s, Residents(s), height);
    assert false;
  }

  lemma {:induction false} CooledBound(cool: seq<seq<CoolEntry>>)
    requires forall b | 0 <= b < |cool| :: |cool[b]| <= NUM_ENTRIES
    ensures |CooledFrames(cool)| <= NUM_ENTRIES * |cool|
  {
    if cool != [] {
      CooledBound(cool[1..]);
    }
  }

  /** Once every frame has been handed out, a pool larger than cooling table, local_page_set and height
      together always has a page the sampler can cool. */
  lemma SamplerCanWork(s: State, st: Store, slot: Slot, root: GlobalAddress, height: nat, g: FrameId,
                       bucket: GlobalAddress -> nat)
    requires Resting(s, st, slot, root, height, g) && Hashes(s, bucket) && s.dynamic
    requires forall b | 0 <= b < |s.cool| :: |s.cool[b]| <= NUM_ENTRIES
    requires NUM_ENTRIES * |s.cool| + |s.free| + height < |s.frames|
    ensures exists pick :: CoolsBy(s, bucket, pick)
  {
    Conservation(s, st);
    CooledBound(s.cool);
    var x := SomeOffTheWay(s, st, slot, root, height, g);
    var pick := OffTheWayCools(s, st, slot, root, height, g, bucket, x);
  }

  /** Sampling leaves the pool at rest, so the same holds for the next call. */
  lemma RestsAfter(s: State, s1: State, st: Store, slot: Slot, root: GlobalAddress, height: nat, g: FrameId)
    requires Resting(s, st, slot, root, height, g) && Inv(s1, st, {}) && Calmer(s, s1)
    ensures Resting(s1, st, slot, root, height, g)
  {
    CalmerKeepsTop(s, s1);
    assert InTree(s, g) && InTree(s, slot.frame);
    assert Stays(s, s1, g) && Stays(s, s1, slot.frame);
    forall f: FrameId | InTree(s1, f) && f != g ensures s1.frames[f].pos == HOT {
      assert InTree(s, f) && Stays(s, s1, f);
    }
  }

  /** Whether no parent is pinned, as for a new page, or a miss pins any one of them: a tree whose pool
      is that much larger can always be served. */
  lemma TreeCanBeServed(t: LeanStoreTree, g: FrameId, bucket: GlobalAddress -> nat)
    requires t.Valid() && t.cache.dynamic && InTree(t.cache.S(), g) && Hashes(t.cache.S(), bucket)
    requires NUM_ENTRIES * |t.cache.hashTable.cool| + |t.cache.localPageSet| + t.height < t.cache.pool.Length
    ensures exists pick :: CoolsBy(t.cache.S(), bucket, pick)
    ensures exists pick :: CoolsBy(Repin(t.cache.S(), g, PINNED), bucket, pick)
  {
    var s := t.cache.S();
    forall b | 0 <= b < |s.cool| ensures |s.cool[b]| <= NUM_ENTRIES {
      assert t.cache.hashTable.BucketIs(b);
    }
    RestsBetween(s, t.cache.logical, t.rootSlot, t.root, t.height, t.contents);
    SamplerCanWork(s, t.cache.logical, t.rootSlot, t.root, t.height, t.rootSlot.frame, bucket);
    RestsPinned(s, t.cache.logical, t.rootSlot, t.root, t.height, t.contents, g);
    SamplerCanWork(Repin(s, g, PINNED), t.cache.logical, t.rootSlot, t.root, t.height, g, bucket);
  }
}
