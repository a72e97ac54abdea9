/** The steps by which the cache moves pages, and the proof that each keeps the invariant
    and the logical store. */
module CacheSteps {
  import opened Types
  import opened Node
  import opened BPlusTree
  import opened CacheState

  // --- What a step may leave alone ---

  /** c is still resident and looks the same from its parent. */
  ghost predicate SameFace(s: State, s': State, c: FrameId) {
    && c < |s.frames| && c < |s'.frames| && InTree(s', c)
    && s'.frames[c].parent == s.frames[c].parent && s'.frames[c].remote == s.frames[c].remote
    && s'.frames[c].node.Level() == s.frames[c].node.Level()
    && s'.frames[c].node.lo == s.frames[c].node.lo && s'.frames[c].node.hi == s.frames[c].node.hi
  }

  /** A frame whose own page is unchanged keeps its slots if its children keep their faces. */
  lemma KeepFrame(s: State, s': State, f: FrameId)
    requires f < |s.frames| && f < |s'.frames| && SlotsSound(s, f)
    requires s'.frames[f].node == s.frames[f].node && s'.frames[f].bitmap == s.frames[f].bitmap
    requires forall c: FrameId {:trigger SameFace(s, s', c)} | InTree(s, c) && s.frames[c].parent == InPool(f) ::
             SameFace(s, s', c)
    ensures SlotsSound(s', f)
  {
    var n := s.frames[f].node;
    if n.Inner? {
      forall i | 0 <= i < |n.children| ensures SlotSound(s', f, i) {
        assert SlotSound(s, f, i);
        if n.children[i].Tagged? { assert SameFace(s, s', n.children[i].frame); }
      }
    }
  }

  /** No frame a slot may name changed its address. */
  ghost predicate SameAddresses(s: State, s': State) {
    && |s'.frames| == |s.frames|
    && forall f | 0 <= f < |s.frames| && InTree(s, f) :: s'.frames[f].remote == s.frames[f].remote
  }

  lemma KeepSays(s: State, s': State, f: FrameId, n': Node<GlobalAddress>)
    requires f < |s.frames| && SlotsSound(s, f) && SameAddresses(s, s') && Says(s, s.frames[f].node, n')
    ensures Says(s', s.frames[f].node, n')
  {
    var n := s.frames[f].node;
    if n.Inner? {
      forall i | 0 <= i < |n.children| ensures LeadsTo(s', n.children[i], n'.children[i]) {
        assert SlotSound(s, f, i);
      }
    }
  }

  /** A frame hangs from one slot only. */
  lemma OneSlot(s: State, g: FrameId, i: nat, j: nat)
    requires g < |s.frames| && SlotsSound(s, g) && SlotSound(s, g, i) && SlotSound(s, g, j)
    requires s.frames[g].node.children[i].Tagged? && s.frames[g].node.children[i] == s.frames[g].node.children[j]
    ensures i == j
  {
    var n := s.frames[g].node;
    ChildIntervalProper(n, i);
    ChildIntervalProper(n, j);
    if i < j {
      SlotsDisjoint(n, i, j);
    } else if j < i {
      SlotsDisjoint(n, j, i);
    }
  }

  /** A frame with an empty bitmap has no swizzled child. */
  lemma NoBitsNoTags(s: State, f: FrameId)
    requires f < |s.frames| && SlotsSound(s, f) && s.frames[f].bitmap == {}
    ensures Plain(s.frames[f].node)
  {
    var n := s.frames[f].node;
    if n.Inner? {
      forall i | 0 <= i < |n.children| ensures n.children[i].Untagged? {
        assert SlotSound(s, f, i);
      }
    }
  }

  // --- Writing back (remote_write, fully_unswizzle) ---

  /** fully_unswizzle: every swizzled child replaced by its address. */
  function Unswizzle(s: State, n: Node<Slot>): Node<Slot> {
    match n
    case Leaf(lo, hi, es) => n
    case Inner(level, lo, hi, keys, cs) =>
      Inner(level, lo, hi, keys, seq(|cs|, i requires 0 <= i < |cs| =>
        if cs[i].Tagged? && cs[i].frame < |s.frames| then Untagged(s.frames[cs[i].frame].remote) else cs[i]))
  }

  lemma UnswizzleSays(s: State, n: Node<Slot>, n': Node<GlobalAddress>)
    requires Says(s, n, n')
    ensures Unswizzle(s, n) == Lift(n')
  {
    if n.Inner? {
      assert forall i | 0 <= i < |n.children| :: LeadsTo(s, n.children[i], n'.children[i]);
    }
  }

  /** What remote_write puts in the backend for frame f. */
  function Stripped(s: State, f: FrameId): Page
    requires f < |s.frames|
  {
    Page(s.frames[f].remote, {}, NoParent, REMOTE, false, Unswizzle(s, s.frames[f].node))
  }

  function WriteBack(s: State, f: FrameId): State
    requires f < |s.frames|
  {
    s.(disk := s.disk[s.frames[f].remote := Stripped(s, f)],
       frames := s.frames[f := s.frames[f].(dirty := false)])
  }

  lemma WriteBackKeepsShape(s: State, st: Store, f: FrameId, hand: set<FrameId>)
    requires Inv(s, st, hand) && InTree(s, f)
    ensures Swizzled(WriteBack(s, f)) && Accounted(WriteBack(s, f), hand) && Mapped(WriteBack(s, f), hand)
  {
    var s' := WriteBack(s, f);
    forall h: FrameId | InTree(s', h) ensures FrameSound(s', h) {
      assert FrameSound(s, h);
      KeepFrame(s, s', h);
    }
    forall h | 0 <= h < s'.head ensures Placed(s', hand, h) {
      assert Placed(s, hand, h);
      assert InCool(s, h) ==> InCool(s', h);
    }
    forall a | a in s'.pages ensures EntrySound(s', hand, a) {
      assert EntrySound(s, hand, a);
    }
  }

  /** Writing a resident frame back leaves the logical store as it was. */
  lemma WriteBackKeeps(s: State, st: Store, f: FrameId, hand: set<FrameId>)
    requires Inv(s, st, hand) && InTree(s, f)
    ensures Inv(WriteBack(s, f), st, hand)
  {
    var s' := WriteBack(s, f);
    WriteBackKeepsShape(s, st, f, hand);
    assert Mirrors(s, st, f);
    UnswizzleSays(s, s.frames[f].node, st[s.frames[f].remote]);
    forall a | a in st ensures DiskSound(s', st, a) {
      assert DiskSound(s, st, a);
      assert a in s.pages ==> EntrySound(s, hand, a);
    }
    forall h: FrameId | InTree(s', h) ensures Mirrors(s', st, h) {
      assert FrameSound(s, h) && Mirrors(s, st, h);
      KeepSays(s, s', h, st[s.frames[h].remote]);
    }
  }

  // --- Cooling a frame (sample_page) ---

  /** Frame f hangs from slot i of frame g, is HOT and clean, and has no swizzled child. */
  ghost predicate Coolable(s: State, f: FrameId, g: FrameId, i: nat) {
    && InTree(s, f) && s.frames[f].pos == HOT && s.frames[f].bitmap == {} && !s.frames[f].dirty
    && s.frames[f].parent == InPool(g) && g < |s.frames| && f != g
    && s.frames[g].node.Inner? && i < |s.frames[g].node.children| && s.frames[g].node.children[i] == Tagged(f)
  }

  /** The parent's slot gets the address back and loses its bit; f becomes COOL in bucket b. */
  function Demote(s: State, f: FrameId, g: FrameId, i: nat, b: nat): State
    requires f < |s.frames| && g < |s.frames| && s.frames[g].node.Inner? && i < |s.frames[g].node.children|
             && b < |s.cool|
  {
    var a, n := s.frames[f].remote, s.frames[g].node;
    s.(frames := s.frames[g := s.frames[g].(node := n.(children := n.children[i := Untagged(a)]),
                                            bitmap := s.frames[g].bitmap - {i})]
                         [f := s.frames[f].(parent := NoParent, pos := COOL)],
       cool := s.cool[b := [CoolEntry(a, f)] + s.cool[b]])
  }

  lemma DemoteKeepsParentSlots(s: State, st: Store, f: FrameId, g: FrameId, i: nat, b: nat)
    requires Inv(s, st, {}) && Coolable(s, f, g, i) && b < |s.cool|
    ensures SlotsSound(Demote(s, f, g, i, b), g)
  {
    var s' := Demote(s, f, g, i, b);
    assert FrameSound(s, f) && FrameSound(s, g);
    var n := s.frames[g].node;
    assert SlotSound(s, g, i);
    forall j | 0 <= j < |n.children| ensures SlotSound(s', g, j) {
      assert SlotSound(s, g, j);
      if j != i && n.children[j] == Tagged(f) { OneSlot(s, g, i, j); }
    }
  }

  lemma DemoteKeepsSwizzling(s: State, st: Store, f: FrameId, g: FrameId, i: nat, b: nat)
    requires Inv(s, st, {}) && Coolable(s, f, g, i) && b < |s.cool|
    ensures Swizzled(Demote(s, f, g, i, b))
  {
    var s' := Demote(s, f, g, i, b);
    assert FrameSound(s, f);
    NoBitsNoTags(s, f);
    forall h: FrameId | InTree(s', h) ensures FrameSound(s', h) {
      assert FrameSound(s, h);
      if h == g {
        DemoteKeepsParentSlots(s, st, f, g, i, b);
      } else {
        KeepFrame(s, s', h);
      }
      assert ParentSound(s', h) by {
        if s.frames[h].parent == InPool(g) {
          var j :| 0 <= j < |s.frames[g].node.children| && s.frames[g].node.children[j] == Tagged(h);
          assert s'.frames[g].node.children[j] == Tagged(h);
        }
      }
    }
  }

  /** The newcomer is filed in front; the other entries keep their bucket and their order. */
  lemma DemoteFiles(s: State, f: FrameId, g: FrameId, i: nat, b: nat, c: nat, j: nat)
    requires Coolable(s, f, g, i) && b < |s.cool|
    requires c < |s.cool| && j < |Demote(s, f, g, i, b).cool[c]|
    ensures Demote(s, f, g, i, b).cool[c][j] ==
            if c != b then s.cool[c][j] else if j == 0 then CoolEntry(s.frames[f].remote, f) else s.cool[b][j - 1]
  {
  }

  lemma DemoteKeepsCool(s: State, st: Store, f: FrameId, g: FrameId, i: nat, b: nat)
    requires Inv(s, st, {}) && Coolable(s, f, g, i) && b < |s.cool|
    ensures var s' := Demote(s, f, g, i, b);
            && CoolApart(s')
            && forall c, j | 0 <= c < |s'.cool| && 0 <= j < |s'.cool[c]| :: CoolSound(s', {}, s'.cool[c][j])
  {
    var s' := Demote(s, f, g, i, b);
    forall c, j | 0 <= c < |s'.cool| && 0 <= j < |s'.cool[c]| ensures CoolSound(s', {}, s'.cool[c][j]) {
      DemoteFiles(s, f, g, i, b, c, j);
      assert Placed(s, {}, f);
    }
    forall c, j, c', j' | 0 <= c < |s'.cool| && 0 <= j < |s'.cool[c]| && 0 <= c' < |s'.cool| && 0 <= j' < |s'.cool[c']|
      && s'.cool[c][j].page == s'.cool[c'][j'].page
      ensures c == c' && j == j'
    {
      DemoteFiles(s, f, g, i, b, c, j);
      DemoteFiles(s, f, g, i, b, c', j');
    }
  }

  lemma DemoteKeepsAccounts(s: State, st: Store, f: FrameId, g: FrameId, i: nat, b: nat)
    requires Inv(s, st, {}) && Coolable(s, f, g, i) && b < |s.cool|
    ensures Accounted(Demote(s, f, g, i, b), {}) && Mapped(Demote(s, f, g, i, b), {})
  {
    var s' := Demote(s, f, g, i, b);
    DemoteKeepsCool(s, st, f, g, i, b);
    forall a | a in s'.pages ensures EntrySound(s', {}, a) {
      assert EntrySound(s, {}, a);
    }
    forall h | 0 <= h < s'.head ensures Placed(s', {}, h) {
      assert Placed(s, {}, h);
      if InCool(s, h) {
        var c, j :| 0 <= c < |s.cool| && 0 <= j < |s.cool[c]| && s.cool[c][j].page == h;
        assert s'.cool[c][if c == b then j + 1 else j].page == h;
      }
      assert s'.cool[b][0].page == f;
    }
  }

  /** Cooling a clean frame leaves the logical store as it was. */
  lemma DemoteKeeps(s: State, st: Store, f: FrameId, g: FrameId, i: nat, b: nat)
    requires Inv(s, st, {}) && Coolable(s, f, g, i) && b < |s.cool|
    ensures Inv(Demote(s, f, g, i, b), st, {})
  {
    var s' := Demote(s, f, g, i, b);
    DemoteKeepsSwizzling(s, st, f, g, i, b);
    DemoteKeepsAccounts(s, st, f, g, i, b);
    forall a | a in st ensures DiskSound(s', st, a) {
      assert DiskSound(s, st, a);
    }
    forall h: FrameId | InTree(s', h) ensures Mirrors(s', st, h) {
      assert FrameSound(s, h) && Mirrors(s, st, h);
      KeepSays(s, s', h, st[s.frames[h].remote]);
    }
  }

  lemma DemoteCalms(s: State, f: FrameId, g: FrameId, i: nat, b: nat)
    requires Coolable(s, f, g, i) && b < |s.cool|
    ensures Calmer(s, Demote(s, f, g, i, b))
    ensures Residents(Demote(s, f, g, i, b)) == Residents(s) - {f}
  {
  }

  // --- Taking a frame (try_get_empty_page) ---

  /** PageTable::remove(key, value): the entry goes only if it names this very frame. */
  function DropPair(pages: map<GlobalAddress, FrameId>, a: GlobalAddress, f: FrameId): map<GlobalAddress, FrameId> {
    if a in pages && pages[a] == f then pages - {a} else pages
  }

  /** The bump allocator hands out the next frame; the last one starts the dynamic phase. */
  function TakeFresh(s: State): State {
    s.(head := s.head + 1, dynamic := s.head + 1 == |s.frames|)
  }

  function TakeFree(s: State): State
    requires s.free != []
  {
    s.(free := s.free[..|s.free| - 1])
  }

  /** evict_last on bucket b, with the page-table clean-up of its caller. */
  function TakeCooled(s: State, b: nat): State
    requires b < |s.cool| && s.cool[b] != []
  {
    var e := s.cool[b][|s.cool[b]| - 1];
    s.(cool := s.cool[b := s.cool[b][..|s.cool[b]| - 1]], pages := DropPair(s.pages, e.key, e.page))
  }

  const PROBING_LENGTH: nat := 8

  /** The buckets from start up to stop, as far as there are any, hold nothing. */
  ghost predicate ProbedEmpty(cool: seq<seq<CoolEntry>>, start: nat, stop: nat) {
    start < |cool| && forall j | start <= j < stop && j < |cool| :: cool[j] == []
  }

  /** Bucket b is the first of a probed stretch that holds anything. */
  ghost predicate FirstProbed(cool: seq<seq<CoolEntry>>, b: nat) {
    && b < |cool| && cool[b] != []
    && exists start: nat :: start <= b < start + PROBING_LENGTH && ProbedEmpty(cool, start, b)
  }

  /** Every frame has been handed out, none is free, and a stretch of cooling buckets is empty. */
  ghost predicate NothingAtHand(s: State) {
    && s.dynamic && s.free == []
    && exists start: nat, stop: nat :: stop == start + PROBING_LENGTH && ProbedEmpty(s.cool, start, stop)
  }

  /** insert_local_set */
  function Release(s: State, f: FrameId): State
    requires f < |s.frames|
  {
    s.(frames := s.frames[f := s.frames[f].(pos := LOCAL)], free := s.free + [f])
  }

  /** Frames and backend untouched: nothing the tree can see has moved. */
  predicate QuietTo(s: State, s': State) {
    s'.frames == s.frames && s'.disk == s.disk
  }

  /** How a frame p is obtained without running the sampler: the next one while warming up, then the
      last of local_page_set, then the oldest entry of the first non-empty bucket probed. */
  ghost predicate Takes(s: State, s': State, p: FrameId) {
    || (!s.dynamic && p == s.head && s' == TakeFresh(s))
    || (s.dynamic && s.free != [] && p == s.free[|s.free| - 1] && s' == TakeFree(s))
    || (s.dynamic && s.free == [] && exists b: nat | FirstProbed(s.cool, b) ::
          p == s.cool[b][|s.cool[b]| - 1].page && s' == TakeCooled(s, b))
  }

  /** That many frames can be taken one after the other without running the sampler, wherever it probes. */
  ghost predicate Serves(s: State, n: nat)
    decreases n
  {
    n == 0 || (!NothingAtHand(s) && forall s', p {:trigger Takes(s, s', p)} :: Takes(s, s', p) ==> Serves(s', n - 1))
  }

  /** The pools differ in frames and backend only. */
  ghost predicate SameBooks(s: State, t: State) {
    && |t.frames| == |s.frames| && t.cool == s.cool && t.free == s.free && t.head == s.head && t.dynamic == s.dynamic
  }

  lemma {:induction false} ServesLess(s: State, m: nat, n: nat)
    requires Serves(s, n) && m <= n
    ensures Serves(s, m)
    decreases m
  {
    if m > 0 {
      forall s', p | Takes(s, s', p) ensures Serves(s', m - 1) {
        ServesLess(s', m - 1, n - 1);
      }
    }
  }

  /** Taking a frame looks at nothing else. */
  lemma TakesAlike(s: State, t: State, t': State, p: FrameId) returns (s': State)
    requires SameBooks(s, t) && Takes(t, t', p)
    ensures Takes(s, s', p) && SameBooks(s', t')
  {
    if !s.dynamic {
      s' := TakeFresh(s);
    } else if s.free != [] {
      s' := TakeFree(s);
    } else {
      var b: nat :| FirstProbed(t.cool, b) && p == t.cool[b][|t.cool[b]| - 1].page && t' == TakeCooled(t, b);
      s' := TakeCooled(s, b);
    }
  }

  lemma {:induction false} ServesAlike(s: State, t: State, n: nat)
    requires SameBooks(s, t) && Serves(s, n)
    ensures Serves(t, n)
    decreases n
  {
    if n > 0 {
      forall t', p | Takes(t, t', p) ensures Serves(t', n - 1) {
        var s' := TakesAlike(s, t, t', p);
        ServesAlike(s', t', n - 1);
      }
    }
  }

  /** local_page_set is a stack: what was put in last is taken next, whatever the cooling table holds. */
  lemma LastReleasedFirst(s: State, f: FrameId, s2: State, p: FrameId)
    requires s.dynamic && f < |s.frames| && Takes(Release(s, f), s2, p)
    ensures p == f && s2.free == s.free && s2.cool == s.cool && s2.pages == s.pages
  {
  }

  lemma TakeFreshKeeps(s: State, st: Store)
    requires Inv(s, st, {}) && !s.dynamic
    ensures Inv(TakeFresh(s), st, {s.head})
  {
    var s', hand := TakeFresh(s), {s.head};
    assert s.head < |s.frames|;
    QuietKeepsTree(s, s', st);
    forall h | 0 <= h < s'.head ensures Placed(s', hand, h) {
      assert h < s.head ==> Placed(s, {}, h);
      assert InCool(s, h) ==> InCool(s', h);
    }
    forall a | a in s'.pages ensures EntrySound(s', hand, a) {
      assert EntrySound(s, {}, a);
    }
    forall b, j | 0 <= b < |s.cool| && 0 <= j < |s.cool[b]| ensures CoolSound(s', hand, s.cool[b][j]) {
      assert CoolSound(s, {}, s.cool[b][j]);
    }
  }

  lemma TakeFreeKeeps(s: State, st: Store)
    requires Inv(s, st, {}) && s.free != []
    ensures Inv(TakeFree(s), st, {s.free[|s.free| - 1]})
  {
    var s', p := TakeFree(s), s.free[|s.free| - 1];
    QuietKeepsTree(s, s', st);
    forall h | 0 <= h < s'.head ensures Placed(s', {p}, h) {
      assert Placed(s, {}, h);
      assert InCool(s, h) ==> InCool(s', h);
    }
    forall a | a in s'.pages ensures EntrySound(s', {p}, a) {
      assert EntrySound(s, {}, a);
    }
    forall b, j | 0 <= b < |s.cool| && 0 <= j < |s.cool[b]| ensures CoolSound(s', {p}, s.cool[b][j]) {
      assert CoolSound(s, {}, s.cool[b][j]);
    }
  }

  lemma TakeCooledAccounts(s: State, st: Store, b: nat)
    requires Inv(s, st, {}) && b < |s.cool| && s.cool[b] != []
    ensures var p := s.cool[b][|s.cool[b]| - 1].page;
            Accounted(TakeCooled(s, b), {p}) && Mapped(TakeCooled(s, b), {p}) && !InTree(s, p)
  {
    var s', n := TakeCooled(s, b), |s.cool[b]| - 1;
    var e := s.cool[b][n];
    assert CoolSound(s, {}, e);
    forall a | a in s'.pages ensures EntrySound(s', {e.page}, a) {
      assert EntrySound(s, {}, a);
    }
    forall h | 0 <= h < s'.head ensures Placed(s', {e.page}, h) {
      assert Placed(s, {}, h);
      if InCool(s, h) && h != e.page {
        var c, j :| 0 <= c < |s.cool| && 0 <= j < |s.cool[c]| && s.cool[c][j].page == h;
        assert s'.cool[c][j].page == h;
      }
    }
    assert forall c, j | 0 <= c < |s'.cool| && 0 <= j < |s'.cool[c]| :: s'.cool[c][j] == s.cool[c][j];
    forall c, j | 0 <= c < |s'.cool| && 0 <= j < |s'.cool[c]| ensures CoolSound(s', {e.page}, s'.cool[c][j]) {
      assert CoolSound(s, {}, s.cool[c][j]);
      assert s.cool[c][j].page == e.page ==> c == b && j == n;
    }
  }

  /** The oldest entry of a bucket can be recycled: no page-table entry of another copy goes with it. */
  lemma TakeCooledKeeps(s: State, st: Store, b: nat)
    requires Inv(s, st, {}) && b < |s.cool| && s.cool[b] != []
    ensures Inv(TakeCooled(s, b), st, {s.cool[b][|s.cool[b]| - 1].page})
  {
    var s' := TakeCooled(s, b);
    TakeCooledAccounts(s, st, b);
    assert CoolSound(s, {}, s.cool[b][|s.cool[b]| - 1]);
    forall f: FrameId | InTree(s, f)
      ensures Mirrors(s, st, f) && s.frames[f].remote in s'.pages && s'.pages[s.frames[f].remote] == f
    {
      assert Mirrors(s, st, f);
    }
    QuietKeepsTree(s, s', st);
  }

  /** Moving frames that are not resident between places does not touch the tree. */
  lemma QuietKeepsTree(s: State, s': State, st: Store)
    requires Swizzled(s) && Stored(s, st) && Mapped(s, {}) && QuietTo(s, s')
    requires forall a | a in s'.pages :: a in s.pages && s'.pages[a] == s.pages[a]
    requires forall f: FrameId {:trigger InTree(s, f)} | InTree(s, f) && Mirrors(s, st, f) ::
             s.frames[f].remote in s'.pages
    ensures Swizzled(s') && Stored(s', st)
  {
    forall f: FrameId | InTree(s', f) ensures FrameSound(s', f) && Mirrors(s', st, f) {
      assert InTree(s, f) && FrameSound(s, f) && Mirrors(s, st, f);
      KeepFrame(s, s', f);
      KeepSays(s, s', f, st[s.frames[f].remote]);
    }
    forall a | a in st ensures DiskSound(s', st, a) {
      assert DiskSound(s, st, a);
      if Ahead(s, a) {
        assert EntrySound(s, {}, a) && Mirrors(s, st, s.pages[a]);
      }
    }
  }

  lemma QuietCalms(s: State, s': State)
    requires QuietTo(s, s')
    ensures Calmer(s, s') && Residents(s') == Residents(s)
  {
  }

  lemma TakesCooledKeeps(s: State, s': State, st: Store, p: FrameId, b: nat)
    requires Inv(s, st, {}) && b < |s.cool| && s.cool[b] != []
    requires p == s.cool[b][|s.cool[b]| - 1].page && s' == TakeCooled(s, b)
    ensures Inv(s', st, {p}) && p < |s.frames|
  {
    TakeCooledKeeps(s, st, b);
    assert CoolSound(s, {}, s.cool[b][|s.cool[b]| - 1]);
  }

  /** However a frame is taken, it is not in use, and the tree does not notice. */
  lemma TakesKeeps(s: State, s': State, st: Store, p: FrameId)
    requires Inv(s, st, {}) && Takes(s, s', p)
    ensures Inv(s', st, {p}) && QuietTo(s, s') && p < |s.frames|
  {
    if !s.dynamic && p == s.head && s' == TakeFresh(s) {
      TakeFreshKeeps(s, st);
    } else if s.free != [] && s' == TakeFree(s) && p == s.free[|s.free| - 1] {
      TakeFreeKeeps(s, st);
    } else {
      var b: nat :| FirstProbed(s.cool, b) && p == s.cool[b][|s.cool[b]| - 1].page && s' == TakeCooled(s, b);
      TakesCooledKeeps(s, s', st, p, b);
    }
  }

  lemma ReleaseKeepsPlaces(s: State, st: Store, f: FrameId)
    requires Inv(s, st, {f})
    ensures Accounted(Release(s, f), {}) && Mapped(Release(s, f), {}) && Calmer(s, Release(s, f))
    ensures !InTree(s, f) && Residents(Release(s, f)) == Residents(s)
  {
    var s' := Release(s, f);
    assert f in {f};
    forall a | a in s'.pages ensures EntrySound(s', {}, a) {
      assert EntrySound(s, {f}, a);
    }
    forall h | 0 <= h < s'.head ensures Placed(s', {}, h) {
      assert Placed(s, {f}, h);
      assert InCool(s, h) ==> InCool(s', h);
      assert s'.free[|s.free|] == f;
      assert h in s.free ==> h in s'.free;
    }
    forall b, j | 0 <= b < |s'.cool| && 0 <= j < |s'.cool[b]| ensures CoolSound(s', {}, s'.cool[b][j]) {
      assert CoolSound(s, {f}, s.cool[b][j]);
    }
  }

  lemma ReleaseKeeps(s: State, st: Store, f: FrameId)
    requires Inv(s, st, {f})
    ensures Inv(Release(s, f), st, {})
  {
    var s' := Release(s, f);
    ReleaseKeepsPlaces(s, st, f);
    forall h: FrameId | InTree(s', h) ensures FrameSound(s', h) && Mirrors(s', st, h) {
      assert FrameSound(s, h) && Mirrors(s, st, h);
      KeepFrame(s, s', h);
      KeepSays(s, s', h, st[s.frames[h].remote]);
    }
    forall a | a in st ensures DiskSound(s', st, a) {
      assert DiskSound(s, st, a);
    }
  }
}
