/** What the cache invariant means to a user of the cache. */
module CacheFacts {
  import opened Types
  import opened Node
  import opened BPlusTree
  import opened CacheState
  import opened CacheSteps
  import opened SplitSteps
  import opened TreeFacts

  // --- The logical store, read off the state ---

  /** What address a holds: its resident frame, unswizzled, if there is one; otherwise the backend page. */
  ghost function LogicalPage(s: State, a: GlobalAddress): Node<Slot>
    requires a in s.disk
  {
    if HasHome(s, a) then
      var f: FrameId :| InTree(s, f) && s.frames[f].remote == a;
      Unswizzle(s, s.frames[f].node)
    else s.disk[a].node
  }

  /** The invariant's logical store is the one the frames and the backend spell out. */
  lemma InvFixesLogicalPage(s: State, st: Store, hand: set<FrameId>, a: GlobalAddress)
    requires Inv(s, st, hand) && a in st
    ensures a in s.disk && LogicalPage(s, a) == Lift(st[a])
  {
    assert DiskSound(s, st, a);
    if Ahead(s, a) {
      AheadHasHome(s, st, hand, a);
    }
    if HasHome(s, a) {
      var f: FrameId :| InTree(s, f) && s.frames[f].remote == a && LogicalPage(s, a) == Unswizzle(s, s.frames[f].node);
      assert Mirrors(s, st, f);
      UnswizzleSays(s, s.frames[f].node, st[a]);
    }
  }

  lemma AheadHasHome(s: State, st: Store, hand: set<FrameId>, a: GlobalAddress)
    requires Inv(s, st, hand) && Ahead(s, a)
    ensures HasHome(s, a)
  {
    assert EntrySound(s, hand, a);
    assert InTree(s, s.pages[a]);
  }

  /** States that agree with one logical store show the same page at every address. */
  lemma Transparency(s: State, s': State, st: Store, hand: set<FrameId>, hand': set<FrameId>)
    requires Inv(s, st, hand) && Inv(s', st, hand')
    ensures forall a | a in st :: a in s.disk && a in s'.disk && LogicalPage(s', a) == LogicalPage(s, a)
  {
    forall a | a in st ensures a in s.disk && a in s'.disk && LogicalPage(s', a) == LogicalPage(s, a) {
      InvFixesLogicalPage(s, st, hand, a);
      InvFixesLogicalPage(s', st, hand', a);
    }
  }

  /** An address has at most one resident frame, and the page table names it, however many
      COOL copies of the address are still around. */
  lemma OneHome(s: State, st: Store, hand: set<FrameId>, f: FrameId)
    requires Inv(s, st, hand) && InTree(s, f)
    ensures s.frames[f].remote in s.pages && s.pages[s.frames[f].remote] == f
    ensures forall h: FrameId | InTree(s, h) && s.frames[h].remote == s.frames[f].remote :: h == f
  {
    assert Mirrors(s, st, f);
    forall h: FrameId | InTree(s, h) && s.frames[h].remote == s.frames[f].remote ensures h == f {
      assert Mirrors(s, st, h);
    }
  }

  /** Write-back discipline: a frame on its way out is clean, and a clean resident frame says
      what the backend says. */
  lemma CleanFramesAgree(s: State, st: Store, hand: set<FrameId>, f: FrameId)
    requires Inv(s, st, hand) && f < |s.frames| && !s.frames[f].dirty && InTree(s, f)
    ensures var a := s.frames[f].remote;
            a in s.disk && s.disk[a].remote == a && s.disk[a].node == Unswizzle(s, s.frames[f].node)
  {
    assert Mirrors(s, st, f);
    var a := s.frames[f].remote;
    assert DiskSound(s, st, a);
    UnswizzleSays(s, s.frames[f].node, st[a]);
  }

  /** evict_last's assertion: no frame in the cooling table is dirty. */
  lemma CoolFramesAreClean(s: State, st: Store, hand: set<FrameId>, b: nat, j: nat)
    requires Inv(s, st, hand) && b < |s.cool| && j < |s.cool[b]|
    ensures s.cool[b][j].page < |s.frames| && !s.frames[s.cool[b][j].page].dirty
  {
    assert CoolSound(s, hand, s.cool[b][j]);
  }

  /** No backend page holds a swizzled pointer. */
  lemma BackendIsUntagged(s: State, st: Store, hand: set<FrameId>, a: GlobalAddress)
    requires Inv(s, st, hand) && a in st
    ensures a in s.disk && Plain(s.disk[a].node)
  {
    assert DiskSound(s, st, a);
  }

  /** No two slots of the pool name one frame. */
  lemma NoSharing(s: State, st: Store, hand: set<FrameId>, f: FrameId, i: nat, g: FrameId, j: nat)
    requires Inv(s, st, hand) && InTree(s, f) && InTree(s, g) && s.frames[f].node.Inner? && s.frames[g].node.Inner?
    requires i < |s.frames[f].node.children| && j < |s.frames[g].node.children|
    requires s.frames[f].node.children[i].Tagged? && s.frames[f].node.children[i] == s.frames[g].node.children[j]
    ensures f == g && i == j
  {
    assert FrameSound(s, f) && FrameSound(s, g);
    assert SlotSound(s, f, i) && SlotSound(s, g, j);
    OneSlot(s, f, i, j);
  }

  /** Frame y is a child of frame x, as both of them see it: x is the parent y names, and one slot
      of x, its bit set, names y. */
  ghost predicate Hangs(s: State, x: FrameId, y: FrameId) {
    && InTree(s, x) && InTree(s, y) && s.frames[y].parent == InPool(x) && s.frames[x].node.Inner?
    && exists i: nat :: i in s.frames[x].bitmap && i < |s.frames[x].node.children|
                        && s.frames[x].node.children[i] == Tagged(y)
  }

  ghost predicate StepAt(s: State, path: seq<FrameId>, i: nat) {
    0 < i < |path| && Hangs(s, path[i - 1], path[i])
  }

  /** A way down from frame top to frame f along swizzled pointers. */
  ghost predicate PathTo(s: State, top: FrameId, path: seq<FrameId>, f: FrameId) {
    && path != [] && path[0] == top && path[|path| - 1] == f
    && forall i {:trigger StepAt(s, path, i)} | 0 < i < |path| :: StepAt(s, path, i)
  }

  /** A resident frame that hangs from the pool hangs from the slot that names it. */
  lemma HangsFromParent(s: State, st: Store, hand: set<FrameId>, f: FrameId, g: FrameId)
    requires Inv(s, st, hand) && InTree(s, f) && s.frames[f].parent == InPool(g)
    ensures Hangs(s, g, f) && s.frames[g].node.Level() == s.frames[f].node.Level() + 1
  {
    assert FrameSound(s, f) && FrameSound(s, g);
    var i :| 0 <= i < |s.frames[g].node.children| && s.frames[g].node.children[i] == Tagged(f);
    assert SlotSound(s, g, i);
    LevelBelowParent(s, f);
  }

  /** The cache is sound over a tree whose root is resident; frames may be pinned. */
  ghost predicate Rooted(s: State, st: Store, slot: Slot, root: GlobalAddress, height: nat) {
    && Inv(s, st, {}) && TreeOk(st, root, height) && TopIs(s, root)
    && slot.Tagged? && InTree(s, slot.frame)
    && s.frames[slot.frame].remote == root && s.frames[slot.frame].parent == SuperRoot
  }

  /** Only the root's frame hangs from super_root_, and every frame lies below the root's level. */
  lemma TopFrame(s: State, st: Store, slot: Slot, root: GlobalAddress, height: nat, f: FrameId)
    requires Rooted(s, st, slot, root, height) && InTree(s, f)
    ensures s.frames[f].node.Level() < height
    ensures s.frames[f].parent == SuperRoot <==> f == slot.frame
    ensures s.frames[f].parent != NoParent
  {
    assert Mirrors(s, st, f) && FrameSound(s, f);
    assert s.frames[f].remote != root ==> Below(st[s.frames[f].remote], height);
    if s.frames[f].parent == SuperRoot {
      OneHomePerAddress(s, st, f, slot.frame);
    }
  }

  /** The resident frames form one tree under super_root_: a path of swizzled pointers leads from
      the root's frame to every resident frame. */
  lemma {:induction false} OneTree(s: State, st: Store, slot: Slot, root: GlobalAddress, height: nat,
                                   f: FrameId)
    requires Rooted(s, st, slot, root, height) && InTree(s, f)
    ensures exists path :: PathTo(s, slot.frame, path, f)
    decreases height - s.frames[f].node.Level()
  {
    TopFrame(s, st, slot, root, height, f);
    if f == slot.frame {
      assert PathTo(s, slot.frame, [f], f);
    } else {
      var g := s.frames[f].parent.frame;
      HangsFromParent(s, st, {}, f, g);
      TopFrame(s, st, slot, root, height, g);
      OneTree(s, st, slot, root, height, g);
      var path :| PathTo(s, slot.frame, path, g);
      forall i | 0 < i < |path + [f]| ensures StepAt(s, path + [f], i) {
        assert i < |path| ==> StepAt(s, path, i);
      }
      assert PathTo(s, slot.frame, path + [f], f);
    }
  }

  /** ... and only one. */
  lemma {:induction false} OnePath(s: State, st: Store, slot: Slot, root: GlobalAddress, height: nat,
                                   f: FrameId, p: seq<FrameId>, q: seq<FrameId>)
    requires Rooted(s, st, slot, root, height) && InTree(s, f)
    requires PathTo(s, slot.frame, p, f) && PathTo(s, slot.frame, q, f)
    ensures p == q
    decreases |p|
  {
    TopFrame(s, st, slot, root, height, f);
    assert |p| > 1 ==> StepAt(s, p, |p| - 1);
    assert |q| > 1 ==> StepAt(s, q, |q| - 1);
    if |p| > 1 {
      var g := p[|p| - 2];
      Shortened(s, slot.frame, p, f);
      Shortened(s, slot.frame, q, f);
      OnePath(s, st, slot, root, height, g, p[..|p| - 1], q[..|q| - 1]);
      assert p == p[..|p| - 1] + [f] && q == q[..|q| - 1] + [f];
    }
  }

  lemma Shortened(s: State, top: FrameId, path: seq<FrameId>, f: FrameId)
    requires PathTo(s, top, path, f) && |path| > 1
    ensures PathTo(s, top, path[..|path| - 1], path[|path| - 2])
  {
    var p := path[..|path| - 1];
    forall i | 0 < i < |p| ensures StepAt(s, p, i) {
      assert StepAt(s, path, i);
    }
  }

  // --- Conservation of frames ---

  function PagesOf(es: seq<CoolEntry>): seq<FrameId> {
    seq(|es|, i requires 0 <= i < |es| => es[i].page)
  }

  /** All cooled frames, bucket by bucket. */
  function CooledFrames(cool: seq<seq<CoolEntry>>): seq<FrameId> {
    if cool == [] then [] else PagesOf(cool[0]) + CooledFrames(cool[1..])
  }

  ghost predicate Distinct(xs: seq<FrameId>) {
    forall i, j | 0 <= i < j < |xs| :: xs[i] != xs[j]
  }

  function Elements(xs: seq<FrameId>): set<FrameId> {
    set x | x in xs
  }

  lemma {:induction false} DistinctCount(xs: seq<FrameId>)
    requires Distinct(xs)
    ensures |Elements(xs)| == |xs|
  {
    if xs != [] {
      DistinctCount(xs[1..]);
      assert Elements(xs) == {xs[0]} + Elements(xs[1..]);
    }
  }

  lemma {:induction false} CooledMembers(cool: seq<seq<CoolEntry>>, x: FrameId)
    ensures x in CooledFrames(cool) <==> exists b, j :: 0 <= b < |cool| && 0 <= j < |cool[b]| && cool[b][j].page == x
  {
    if cool != [] {
      CooledMembers(cool[1..], x);
      if x in PagesOf(cool[0]) {
        var j :| 0 <= j < |cool[0]| && cool[0][j].page == x;
      } else if x in CooledFrames(cool[1..]) {
        var b, j :| 0 <= b < |cool[1..]| && 0 <= j < |cool[1..][b]| && cool[1..][b][j].page == x;
        assert cool[b + 1][j].page == x;
      }
      if b, j :| 0 <= b < |cool| && 0 <= j < |cool[b]| && cool[b][j].page == x {
        if b == 0 {
          assert PagesOf(cool[0])[j] == x;
        } else {
          assert cool[1..][b - 1][j].page == x;
        }
      }
    }
  }

  ghost predicate PagesApart(cool: seq<seq<CoolEntry>>) {
    forall b, j, b', j' | 0 <= b < |cool| && 0 <= j < |cool[b]| && 0 <= b' < |cool| && 0 <= j' < |cool[b']| ::
      cool[b][j].page == cool[b'][j'].page ==> b == b' && j == j'
  }

  lemma FirstBucketApart(cool: seq<seq<CoolEntry>>)
    requires cool != [] && PagesApart(cool)
    ensures forall x | x in PagesOf(cool[0]) :: x !in CooledFrames(cool[1..])
  {
    forall j, b', j' | 0 <= j < |cool[0]| && 0 <= b' < |cool[1..]| && 0 <= j' < |cool[1..][b']|
      ensures cool[0][j].page != cool[1..][b'][j'].page
    {
      assert cool[1..][b'] == cool[b' + 1];
    }
    forall x | x in PagesOf(cool[0]) ensures x !in CooledFrames(cool[1..]) {
      CooledMembers(cool[1..], x);
    }
  }

  lemma {:induction false} CooledDistinct(cool: seq<seq<CoolEntry>>)
    requires PagesApart(cool)
    ensures Distinct(CooledFrames(cool))
  {
    if cool != [] {
      assert PagesApart(cool[1..]) by {
        forall b, j, b', j' | 0 <= b < |cool[1..]| && 0 <= j < |cool[1..][b]| && 0 <= b' < |cool[1..]|
        && 0 <= j' < |cool[1..][b']|
            && cool[1..][b][j].page == cool[1..][b'][j'].page
          ensures b == b' && j == j'
        {
          assert cool[b + 1][j].page == cool[b' + 1][j'].page;
        }
      }
      CooledDistinct(cool[1..]);
      FirstBucketApart(cool);
      var xs, ys := PagesOf(cool[0]), CooledFrames(cool[1..]);
      forall i, j | 0 <= i < j < |xs + ys| ensures (xs + ys)[i] != (xs + ys)[j] {
        if j < |xs| {
          assert cool[0][i].page != cool[0][j].page;
        } else if i < |xs| {
          assert (xs + ys)[i] in xs && (xs + ys)[j] in ys;
        }
      }
    }
  }

  function Upto(lo: nat, hi: nat): set<FrameId>
    requires lo <= hi
  {
    set x: FrameId | lo <= x < hi && Within(lo, x, hi)
  }

  predicate Within(lo: nat, x: nat, hi: nat) {
    lo <= x < hi
  }

  lemma {:induction false} UptoCount(lo: nat, hi: nat)
    requires lo <= hi
    ensures |Upto(lo, hi)| == hi - lo
    decreases hi - lo
  {
    if lo < hi {
      UptoCount(lo, hi - 1);
      forall x | x in Upto(lo, hi) ensures x in Upto(lo, hi - 1) + {hi - 1} {
        assert Within(lo, x, hi - 1) || x == hi - 1;
      }
      assert Within(lo, hi - 1, hi);
      forall x | x in Upto(lo, hi - 1) ensures x in Upto(lo, hi) {
        assert Within(lo, x, hi);
      }
      assert Upto(lo, hi) == Upto(lo, hi - 1) + {hi - 1};
    }
  }

  lemma CooledFramesAreCool(s: State, st: Store)
    requires Inv(s, st, {})
    ensures forall x | x in CooledFrames(s.cool) :: x < s.head && x < |s.frames| && s.frames[x].pos == COOL
    ensures forall x :: x in CooledFrames(s.cool) <==> InCool(s, x)
  {
    forall x ensures x in CooledFrames(s.cool) <==> InCool(s, x) {
      CooledMembers(s.cool, x);
    }
    forall x | x in CooledFrames(s.cool) ensures x < s.head && x < |s.frames| && s.frames[x].pos == COOL {
      CooledMembers(s.cool, x);
      var b, j :| 0 <= b < |s.cool| && 0 <= j < |s.cool[b]| && s.cool[b][j].page == x;
      assert CoolSound(s, {}, s.cool[b][j]);
    }
  }

  /** A frame that was handed out is free, cooling or resident. */
  lemma HandedOut(s: State, st: Store)
    requires Inv(s, st, {})
    ensures Upto(0, s.head) == Elements(s.free) + Elements(CooledFrames(s.cool)) + Residents(s)
  {
    CooledFramesAreCool(s, st);
    forall x | x in Upto(0, s.head)
      ensures x in Elements(s.free) + Elements(CooledFrames(s.cool)) + Residents(s)
    {
      assert Placed(s, {}, x);
    }
    forall x | x in Elements(s.free) + Elements(CooledFrames(s.cool)) + Residents(s) ensures x in Upto(0, s.head) {
      assert Within(0, x, s.head);
    }
  }

  lemma PlacesApart(s: State, st: Store)
    requires Inv(s, st, {})
    ensures Elements(s.free) !! Elements(CooledFrames(s.cool)) !! Residents(s) !! Upto(s.head, |s.frames|)
    ensures Distinct(s.free) && Distinct(CooledFrames(s.cool))
  {
    CooledFramesAreCool(s, st);
    CooledDistinct(s.cool);
  }

  /** Every frame of the pool is in exactly one place: never handed out, in local_page_set,
      cooling, or resident; the four counts add up to the size of the pool. */
  lemma Conservation(s: State, st: Store)
    requires Inv(s, st, {})
    ensures (|s.frames| - s.head) + |s.free| + |CooledFrames(s.cool)| + |Residents(s)| == |s.frames|
    ensures Elements(s.free) !! Elements(CooledFrames(s.cool)) !! Residents(s) !! Upto(s.head, |s.frames|)
  {
    PlacesApart(s, st);
    HandedOut(s, st);
    DistinctCount(s.free);
    DistinctCount(CooledFrames(s.cool));
    UptoCount(0, s.head);
    CountThree(Elements(s.free), Elements(CooledFrames(s.cool)), Residents(s));
  }

  lemma CountThree(a: set<FrameId>, b: set<FrameId>, c: set<FrameId>)
    requires a !! b !! c
    ensures |a + b + c| == |a| + |b| + |c|
  {
    assert |a + b| == |a| + |b|;
  }
}
