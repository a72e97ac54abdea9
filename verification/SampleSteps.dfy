/** One pass of the sampler (include/cache/LeanStoreCache.h, sample_page) as steps on the state:
    the checks it makes, how it cools a page, and what that keeps. */
module SampleSteps {
  import opened Types
  import opened Node
  import opened BPlusTree
  import opened CacheState
  import opened CacheSteps
  import opened CoolingTable

  const MAX_TRIES: nat := 1000

  // --- check_parent_child_info ---

  /** check_limit_match: the child's limits are those of the slot holding it. */
  predicate CheckLimitMatch(parent: Node<Slot>, child: Node<Slot>, slot: Slot)
    requires parent.Inner? && |parent.children| == |parent.keys| + 1
  {
    var idx := FindIdx(parent.children, slot);
    idx != -1 && parent.ChildLo(idx) == child.lo && parent.ChildHi(idx) == child.hi
  }

  predicate CheckParentChildInfo(parent: Node<Slot>, child: Page, f: FrameId)
    requires parent.Inner? && |parent.children| == |parent.keys| + 1
  {
    && parent.level == child.node.Level() + 1
    && parent.lo <= child.node.lo && child.node.hi <= parent.hi
    && (CheckLimitMatch(parent, child.node, Tagged(f)) || CheckLimitMatch(parent, child.node, Untagged(child.remote)))
  }

  /** The check passes for every frame that hangs from its parent as the invariant says. */
  lemma CheckPasses(s: State, g: FrameId, i: nat)
    requires g < |s.frames| && SlotsSound(s, g) && SlotSound(s, g, i) && s.frames[g].node.children[i].Tagged?
    ensures var f := s.frames[g].node.children[i].frame;
            FindIdx(s.frames[g].node.children, Tagged(f)) == i
            && CheckParentChildInfo(s.frames[g].node, s.frames[f], f)
  {
    var n := s.frames[g].node;
    var j := FindIdx(n.children, n.children[i]);
    assert SlotSound(s, g, j);
    OneSlot(s, g, i, j);
    ChildIntervalProper(n, i);
  }

  // --- One pass of sample_page over the whole state ---

  /** Cool, and recycle what the bucket gave up. */
  function Retired(s: State, f: FrameId, g: FrameId, i: nat, b: nat): State
    requires f < |s.frames| && g < |s.frames| && f != g && b < |s.cool|
    requires s.frames[g].node.Inner? && i < |s.frames[g].node.children|
    requires forall e | e in s.cool[b] :: e.page < |s.frames|
  {
    var s2 := Demote(s, f, g, i, b);
    if |s.cool[b]| < NUM_ENTRIES then s2 else Recycled(s2, b)
  }

  /** Write back if dirty, cool, and recycle what the bucket gave up. */
  function Sampled(s: State, f: FrameId, g: FrameId, i: nat, b: nat): State
    requires f < |s.frames| && g < |s.frames| && f != g && b < |s.cool|
    requires s.frames[g].node.Inner? && i < |s.frames[g].node.children|
    requires forall e | e in s.cool[b] :: e.page < |s.frames|
  {
    Retired(Cleaned(s, f), f, g, i, b)
  }

  /** Frame f hangs from slot i of frame g and may be cooled. */
  ghost predicate Samplable(s: State, f: FrameId, g: FrameId, i: nat) {
    && InTree(s, f) && s.frames[f].pos == HOT && s.frames[f].bitmap == {}
    && s.frames[f].parent == InPool(g) && InTree(s, g) && f != g
    && s.frames[g].node.Inner? && i < |s.frames[g].node.children| && s.frames[g].node.children[i] == Tagged(f)
  }

  lemma CoolPagesInPool(s: State, hand: set<FrameId>, b: nat)
    requires Accounted(s, hand) && b < |s.cool|
    ensures forall e | e in s.cool[b] :: e.page < |s.frames| && s.frames[e.page].remote == e.key
                                         && s.frames[e.page].pos == COOL
  {
    forall e | e in s.cool[b]
      ensures e.page < |s.frames| && s.frames[e.page].remote == e.key && s.frames[e.page].pos == COOL
    {
      var j :| 0 <= j < |s.cool[b]| && s.cool[b][j] == e;
      assert CoolSound(s, hand, s.cool[b][j]);
    }
  }

  function Cleaned(s: State, f: FrameId): State
    requires f < |s.frames|
  {
    if s.frames[f].dirty then WriteBack(s, f) else s
  }

  lemma CleanedKeeps(s: State, st: Store, f: FrameId)
    requires Inv(s, st, {}) && InTree(s, f)
    ensures Inv(Cleaned(s, f), st, {}) && !Cleaned(s, f).frames[f].dirty && DiskCalm(s, Cleaned(s, f))
  {
    if s.frames[f].dirty {
      WriteBackKeeps(s, st, f, {});
      assert Mirrors(s, st, f);
      assert DiskSound(s, st, s.frames[f].remote);
    }
  }

  /** An overfull bucket gives up its oldest frame to local_page_set. */
  function Recycled(s: State, b: nat): State
    requires b < |s.cool| && s.cool[b] != [] && forall e | e in s.cool[b] :: e.page < |s.frames|
  {
    Release(TakeCooled(s, b), s.cool[b][|s.cool[b]| - 1].page)
  }

  lemma RecycledKeeps(s: State, st: Store, b: nat)
    requires Inv(s, st, {}) && b < |s.cool| && s.cool[b] != [] && forall e | e in s.cool[b] :: e.page < |s.frames|
    ensures Inv(Recycled(s, b), st, {}) && Calmer(s, Recycled(s, b)) && Residents(Recycled(s, b)) == Residents(s)
  {
    var e := s.cool[b][|s.cool[b]| - 1];
    TakeCooledKeeps(s, st, b);
    QuietCalms(s, TakeCooled(s, b));
    ReleaseKeeps(TakeCooled(s, b), st, e.page);
    ReleaseKeepsPlaces(TakeCooled(s, b), st, e.page);
    CalmerTransitive(s, TakeCooled(s, b), Recycled(s, b));
  }

  lemma DemotedKeeps(s: State, st: Store, f: FrameId, g: FrameId, i: nat, b: nat)
    requires Inv(s, st, {}) && Samplable(s, f, g, i) && b < |s.cool|
    ensures var s2 := Demote(Cleaned(s, f), f, g, i, b);
            Inv(s2, st, {}) && Calmer(s, s2) && Residents(s2) == Residents(s) - {f}
  {
    CleanedKeeps(s, st, f);
    DemoteKeeps(Cleaned(s, f), st, f, g, i, b);
    DemoteCalms(Cleaned(s, f), f, g, i, b);
    CalmerFrom(s, Cleaned(s, f), Demote(Cleaned(s, f), f, g, i, b));
  }

  /** Cooling a page changes neither the logical store nor any pinned or top frame, and takes
      exactly that frame out of the tree. */
  lemma SampledKeeps(s: State, st: Store, f: FrameId, g: FrameId, i: nat, b: nat)
    requires Inv(s, st, {}) && Samplable(s, f, g, i) && b < |s.cool|
    ensures forall e | e in s.cool[b] :: e.page < |s.frames|
    ensures var s' := Sampled(s, f, g, i, b);
            Inv(s', st, {}) && Calmer(s, s') && Residents(s') == Residents(s) - {f}
  {
    CoolPagesInPool(s, {}, b);
    DemotedKeeps(s, st, f, g, i, b);
    if |s.cool[b]| >= NUM_ENTRIES {
      var s2 := Demote(Cleaned(s, f), f, g, i, b);
      CoolPagesInPool(s2, {}, b);
      RecycledKeeps(s2, st, b);
      CalmerTransitive(s, s2, Recycled(s2, b));
    }
  }

  /** Writing back does not count as a change of the pool. */
  lemma CalmerFrom(s: State, s1: State, s2: State)
    requires |s1.frames| == |s.frames| && DiskCalm(s, s1)
    requires forall x | 0 <= x < |s.frames| :: s1.frames[x] == s.frames[x].(dirty := s1.frames[x].dirty)
    requires Calmer(s1, s2)
    ensures Calmer(s, s2) && Residents(s1) == Residents(s)
  {
    forall x: FrameId | InTree(s2, x) ensures InTree(s, x) && Stays(s, s2, x) {
      assert InTree(s1, x);
    }
    forall x: FrameId | InTree(s, x) && (s.frames[x].pos == PINNED || s.frames[x].parent == SuperRoot)
      ensures InTree(s2, x)
    {
      assert InTree(s1, x);
    }
    forall a | a in s.disk ensures s2.disk[a] == s.disk[a] || HasHome(s, a) {
      assert s2.disk[a] == s1.disk[a] || HasHome(s1, a);
      if HasHome(s1, a) {
        var x: FrameId :| InTree(s1, x) && s1.frames[x].remote == a;
        assert InTree(s, x) && s.frames[x].remote == a;
      }
    }
  }

  function Unhooked(s: State, f: FrameId, g: FrameId, i: nat): State
    requires f < |s.frames| && g < |s.frames| && s.frames[g].node.Inner? && i < |s.frames[g].node.children|
  {
    var n := s.frames[g].node;
    s.(frames := s.frames[g := s.frames[g].(node := n.(children := n.children[i := Untagged(s.frames[f].remote)]),
                                            bitmap := s.frames[g].bitmap - {i})]
                         [f := s.frames[f].(parent := NoParent)])
  }

  function Chilled(s: State, f: FrameId, b: nat): State
    requires f < |s.frames| && b < |s.cool|
  {
    s.(frames := s.frames[f := s.frames[f].(pos := COOL)],
       cool := s.cool[b := [CoolEntry(s.frames[f].remote, f)] + s.cool[b]])
  }

  lemma UnhookAndChill(s: State, f: FrameId, g: FrameId, i: nat, b: nat)
    requires f < |s.frames| && g < |s.frames| && f != g && s.frames[g].node.Inner? && i < |s.frames[g].node.children|
             && b < |s.cool|
    ensures Chilled(Unhooked(s, f, g, i), f, b) == Demote(s, f, g, i, b)
  {
  }

  /** Bucket b files frames of the pool, other than f, under their own addresses. */
  ghost predicate FiledRight(s: State, b: nat, f: FrameId) {
    b < |s.cool| && forall e | e in s.cool[b] :: e.page < |s.frames| && e.page != f && s.frames[e.page].remote == e.key
  }

  lemma UnhookKeepsFiled(s: State, f: FrameId, g: FrameId, i: nat, b: nat)
    requires f < |s.frames| && g < |s.frames| && f != g && s.frames[g].node.Inner? && i < |s.frames[g].node.children|
    requires FiledRight(s, b, f)
    ensures FiledRight(Unhooked(s, f, g, i), b, f)
  {
  }

  lemma PlainUnswizzled(s: State, n: Node<Slot>)
    requires Plain(n)
    ensures Unswizzle(s, n) == n
  {
  }

  // --- The branches of a pass ---

  /** What sample_page makes of the frame c a walk ended at: nothing, or the branch it takes. */
  datatype Choice =
    | Skip                                              // under super_root_
    | Orphan(page: FrameId)                             // parent_ptr is null
    | Stale(page: FrameId)                              // the parent has no slot for the page
    | Mismatch(page: FrameId)                           // check_parent_child_info fails
    | Cool(page: FrameId, parent: FrameId, idx: nat)

  /** The branches in which a pass does harm: it cools a page that nobody unhooks, or an assertion fails. */
  predicate Fatal(choice: Choice) {
    choice.Orphan? || choice.Mismatch?
  }

  predicate IsParent(frames: seq<Page>, g: FrameId, c: FrameId) {
    && g < |frames| && g != c && frames[g].node.Inner? && |frames[g].node.children| == |frames[g].node.keys| + 1
  }

  /** idx is the slot the walk took last, -1 when it took none; then the parent is searched. */
  function Judge(frames: seq<Page>, c: FrameId, idx: int): Choice
    requires c < |frames|
  {
    match frames[c].parent
    case SuperRoot => Skip
    case NoParent => Orphan(c)
    case InPool(g) =>
      if !IsParent(frames, g, c) then Mismatch(c)
      else
        var n := frames[g].node;
        var i := if idx == -1 then FindIdx(n.children, Tagged(c)) else idx;
        if i == -1 then Stale(c)
        else if !(0 <= i < |n.children|) || !CheckParentChildInfo(n, frames[c], c) then Mismatch(c)
        else Cool(c, g, i)
  }

  /** Some pick of the sampler cools nothing: a frame that is not HOT, or a page under super_root_
      without swizzled children. */
  ghost predicate Barren(s: State) {
    exists f: FrameId :: f < |s.frames| && Idle(s.frames[f])
  }

  predicate Idle(page: Page) {
    page.pos != HOT || (page.parent == SuperRoot && page.bitmap == {})
  }

  /** A page a pass may cool or clear: HOT, and not under super_root_. */
  predicate Lively(page: Page) {
    page.pos == HOT && page.parent.InPool?
  }

  /** Some pick of the sampler does harm. */
  ghost predicate Deadly(s: State) {
    exists c: FrameId :: DeadlyAt(s, c)
  }

  ghost predicate DeadlyAt(s: State, c: FrameId) {
    c < |s.frames| && s.frames[c].pos == HOT && s.frames[c].bitmap == {} && Fatal(Judge(s.frames, c, -1))
  }

  /** What a pass comes to, and in the end a call: a page is cooled, none is, or the pass would do harm. */
  datatype Pace = Cooled | Tried | Harmed
}
