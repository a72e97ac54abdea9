/** The one place where the sampler may meet a cache that is not sound: inside split_child for an
    inner page, between the cut of the page and the moment its sibling is in the pool
    (include/tree/LeanStoreTree.h:176-187). What the pool looks like there, when a call of
    sample_page can do harm, and why it does none otherwise. */
module SplitWindow {
  import opened Types
  import opened Node
  import opened BPlusTree
  import opened CacheState
  import opened CacheSteps
  import opened LoadSteps
  import opened SplitSteps
  import opened TreeFacts
  import opened CoolingTable
  import opened SampleSteps

  /** The pool in the window: page f is cut, its upper half sits in a buffer outside the pool. */
  function Window(s: State, f: FrameId): State
    requires f < |s.frames| && NodeOk(s.frames[f].node) && s.frames[f].node.Full()
  {
    s.(frames := s.frames[f := Cut(s.frames[f])])
  }

  /** The slots in that buffer. */
  function Moved(s: State, f: FrameId): seq<Slot>
    requires f < |s.frames| && NodeOk(s.frames[f].node) && s.frames[f].node.Full() && s.frames[f].node.Inner?
  {
    Split(s.frames[f].node).right.children
  }

  /** When the window is dangerous: a moved slot names a frame without swizzled children, or no
      child of the page below the cut is swizzled and the page hangs from a frame of the pool. */
  ghost predicate Hazard(s: State, f: FrameId)
    requires f < |s.frames| && NodeOk(s.frames[f].node) && s.frames[f].node.Full() && s.frames[f].node.Inner?
  {
    || (exists c: FrameId :: c < |s.frames| && Tagged(c) in Moved(s, f) && s.frames[c].bitmap == {})
    || (Cut(s.frames[f]).bitmap == {} && s.frames[f].parent.InPool?)
  }

  /** The situation in the window: s is the sound state that has page f still whole. */
  ghost predicate AtWindow(s: State, st: Store, f: FrameId) {
    Inv(s, st, {}) && Settled(s) && FullInner(s, f) && NodeOk(s.frames[f].node)
  }

  // --- One sampler for both situations ---

  /** The page that is cut, and the slots of its upper half in the buffer. */
  datatype Cutting = Cutting(frame: FrameId, moved: seq<Slot>)

  /** What the pool shows: the sound state itself, or the window of a cut page in it. */
  function Seen(s: State, cut: Option<Cutting>): State
    requires cut.Some? ==>
               var f := cut.value.frame;
               f < |s.frames| && NodeOk(s.frames[f].node) && s.frames[f].node.Full()
  {
    if cut.Some? then Window(s, cut.value.frame) else s
  }

  /** Passes of the sampler have cleared the parent pointers of these frames. */
  function Freed(s: State, loose: set<FrameId>): State {
    s.(frames := seq(|s.frames|, x requires 0 <= x < |s.frames| =>
      if x in loose then s.frames[x].(parent := NoParent) else s.frames[x]))
  }

  /** What the pool shows in the end: only children that moved can have lost their parent pointer. */
  function Shown(s: State, cut: Option<Cutting>, loose: set<FrameId>): State
    requires cut.Some? ==>
               var f := cut.value.frame;
               f < |s.frames| && NodeOk(s.frames[f].node) && s.frames[f].node.Full()
  {
    Freed(Seen(s, cut), loose)
  }

  ghost predicate LooseOk(cut: Option<Cutting>, loose: set<FrameId>) {
    forall c | c in loose :: cut.Some? && Tagged(c) in cut.value.moved
  }

  /** Pool w shows the window of page f in state s, with the parent pointers of some moved children cleared. */
  ghost predicate ShowsWindow(w: State, s: State, f: FrameId, loose: set<FrameId>) {
    && f < |s.frames| && NodeOk(s.frames[f].node) && s.frames[f].node.Full() && s.frames[f].node.Inner?
    && w == Freed(Window(s, f), loose) && forall c | c in loose :: Tagged(c) in Moved(s, f)
  }

  /** update_all_parent_ptr sets the cleared pointers again, once the sibling has frame p. */
  lemma FreedAdopted(w: State, loose: set<FrameId>, p: FrameId, sib: Page, cs: seq<Slot>)
    requires p < |w.frames| && forall c | c in loose :: Tagged(c) in cs
    ensures var s1, s2 := Admit(Freed(w, loose), p, sib), Admit(w, p, sib);
            s1.(frames := Adopt(s1.frames, cs, p)) == s2.(frames := Adopt(s2.frames, cs, p))
  {
    assert Adopt(Admit(Freed(w, loose), p, sib).frames, cs, p) == Adopt(Admit(w, p, sib).frames, cs, p);
  }

  lemma FreedNone(s: State)
    ensures Freed(s, {}) == s
  {
    assert Freed(s, {}).frames == s.frames;
  }

  lemma FreedOneMore(s: State, loose: set<FrameId>, c: FrameId)
    requires c < |s.frames|
    ensures var frames := Freed(s, loose).frames;
            Freed(s, loose + {c}) == s.(frames := frames[c := frames[c].(parent := NoParent)])
  {
    var frames := Freed(s, loose).frames;
    assert Freed(s, loose + {c}).frames == frames[c := frames[c].(parent := NoParent)];
  }

  /** s is sound, and is at the window of the cut page if there is one. */
  ghost predicate Sound(s: State, st: Store, cut: Option<Cutting>) {
    && Inv(s, st, {})
    && (cut.Some? ==> AtWindow(s, st, cut.value.frame) && cut.value.moved == Moved(s, cut.value.frame))
  }

  /** There is a cut page, and its window is dangerous. */
  ghost predicate Harmful(s: State, cut: Option<Cutting>) {
    && cut.Some?
    && var f := cut.value.frame;
    && f < |s.frames| && NodeOk(s.frames[f].node) && s.frames[f].node.Full() && s.frames[f].node.Inner? && Hazard(s, f)
  }

  /** Frame c may be cooled and the cut page has nothing to do with it. */
  ghost predicate Choosable(s: State, cut: Option<Cutting>, c: FrameId, g: FrameId, i: nat) {
    && Samplable(s, c, g, i)
    && (cut.Some? ==>
          var f := cut.value.frame;
          && c != f && f < |s.frames| && NodeOk(s.frames[f].node) && s.frames[f].node.Full() && s.frames[f].node.Inner?
          && (g == f ==> i < |Split(s.frames[f].node).left.children|))
  }

  /** The parts of page f that a split will move are the same in both states. */
  ghost predicate SameMoved(s: State, s': State, f: FrameId) {
    && f < |s.frames| && f < |s'.frames|
    && var p, p' := s.frames[f], s'.frames[f];
    && NodeOk(p.node) && p.node.Full() && p.node.Inner? && NodeOk(p'.node) && p'.node.Full() && p'.node.Inner?
    && p'.parent == p.parent && p'.remote == p.remote && p'.pos == p.pos && p'.node.level == p.node.level
    && Split(p'.node).sep == Split(p.node).sep && Split(p'.node).right == Split(p.node).right
    && HighBits(p'.bitmap, |Split(p'.node).left.children|) == HighBits(p.bitmap, |Split(p.node).left.children|)
  }

  /** From s to s' pages were cooled, and none that the cut page has to do with. */
  ghost predicate Kept(s: State, s': State, st: Store, cut: Option<Cutting>) {
    && Sound(s', st, cut) && Calmer(s, s')
    && (cut.Some? ==> SameMoved(s, s', cut.value.frame))
  }

  /** From s to s1 the HOT page in frame c was cooled, and no other frame left the tree. */
  ghost predicate CooledOne(s: State, s1: State, c: FrameId) {
    && InTree(s, c) && s.frames[c].pos == HOT && c < |s1.frames| && s1.frames[c].pos == COOL
    && c in Residents(s) && Residents(s1) == Residents(s) - {c}
  }

  lemma KeptItself(s: State, st: Store, cut: Option<Cutting>)
    requires Sound(s, st, cut)
    ensures Kept(s, s, st, cut)
  {
  }

  lemma KeptTransitive(s: State, s': State, s'': State, st: Store, cut: Option<Cutting>)
    requires Kept(s, s', st, cut) && Kept(s', s'', st, cut)
    ensures Kept(s, s'', st, cut)
  {
    CalmerTransitive(s, s', s'');
  }

  /** In the window every frame is where it was. */
  lemma ShownPlaces(s: State, st: Store, cut: Option<Cutting>, loose: set<FrameId>)
    requires Sound(s, st, cut)
    ensures Accounted(Shown(s, cut, loose), {}) && Mapped(Shown(s, cut, loose), {})
  {
    SamePlaces(s, Shown(s, cut, loose), {});
  }

  // --- Walking down from a frame ---

  /** A set bit of a resident frame leads to a resident child one level down, cut or not. */
  lemma BitLeads(s: State, st: Store, cut: Option<Cutting>, x: FrameId, j: nat)
    requires Sound(s, st, cut) && InTree(s, x) && j in Seen(s, cut).frames[x].bitmap
    ensures var n := Seen(s, cut).frames[x].node;
            && n.Inner? && |n.children| == |n.keys| + 1 && j < |n.children| && |n.keys| < 64 && n.children[j].Tagged?
            && var y := n.children[j].frame;
            && j < |s.frames[x].node.children| && s.frames[x].node.children[j] == Tagged(y)
            && InTree(s, y) && s.frames[y].parent == InPool(x) && y != x
            && s.frames[y].node.Level() + 1 == n.Level()
  {
    assert FrameSound(s, x);
    assert SlotSound(s, x, j);
    if cut.Some? && x == cut.value.frame {
      SplitOk(s.frames[x].node);
      assert s.frames[x].node.children[j] == Split(s.frames[x].node).left.children[j];
    }
  }

  /** Frame c hangs from the frame it calls parent, by a slot that can be seen. */
  ghost predicate HangsSeen(s: State, cut: Option<Cutting>, c: FrameId, i: int)
    requires cut.Some? ==>
               var f := cut.value.frame;
               f < |s.frames| && NodeOk(s.frames[f].node) && s.frames[f].node.Full()
  {
    && InTree(s, c) && s.frames[c].parent.InPool?
    && var g := s.frames[c].parent.frame;
    && InTree(s, g) && g != c
    && var n := Seen(s, cut).frames[g].node;
    && n.Inner? && |n.children| == |n.keys| + 1 && 0 <= i < |n.children| && n.children[i] == Tagged(c)
  }

  /** The bottom of a walk may be cooled if it is not the cut page and did not move: its parent's slot
      is found, and the check on it passes. */
  lemma BottomChoosable(s: State, st: Store, cut: Option<Cutting>, c: FrameId)
    requires Sound(s, st, cut) && (cut.Some? ==> c != cut.value.frame && Tagged(c) !in cut.value.moved)
    requires InTree(s, c) && s.frames[c].pos == HOT && Seen(s, cut).frames[c].bitmap == {}
             && s.frames[c].parent != SuperRoot
    ensures s.frames[c].parent.InPool? && s.frames[c] == Seen(s, cut).frames[c]
    ensures var g := s.frames[c].parent.frame;
            && InTree(s, g) && g != c
            && var n := Seen(s, cut).frames[g].node;
            && n.Inner? && |n.children| == |n.keys| + 1 && Tagged(c) in n.children
            && forall i: int | 0 <= i < |n.children| && n.children[i] == Tagged(c) ::
                 Choosable(s, cut, c, g, i) && CheckParentChildInfo(n, s.frames[c], c)
  {
    assert FrameSound(s, c);
    var g := s.frames[c].parent.frame;
    assert FrameSound(s, g);
    LevelBelowParent(s, c);
    if cut.Some? {
      CutBottom(s, st, cut.value.frame, c, g);
    }
    var n := Seen(s, cut).frames[g].node;
    forall i: int | 0 <= i < |n.children| && n.children[i] == Tagged(c)
      ensures Choosable(s, cut, c, g, i) && CheckParentChildInfo(n, s.frames[c], c)
    {
      CheckSeen(s, st, cut, c, g, i);
    }
  }

  lemma CutBottom(s: State, st: Store, f: FrameId, c: FrameId, g: FrameId)
    requires AtWindow(s, st, f) && InTree(s, c) && c != f && Tagged(c) !in Moved(s, f)
    requires s.frames[c].parent == InPool(g) && InTree(s, g) && g != c && s.frames[g].node.Inner?
             && Tagged(c) in s.frames[g].node.children
    ensures Tagged(c) in Window(s, f).frames[g].node.children
  {
    SplitIsPartition(s.frames[f].node);
    var h := Split(s.frames[f].node);
    assert g == f ==> Tagged(c) in h.left.children + h.right.children;
  }

  /** A child seen in a slot hangs from that slot, and the check on it passes. */
  lemma CheckSeen(s: State, st: Store, cut: Option<Cutting>, c: FrameId, g: FrameId, i: nat)
    requires Sound(s, st, cut) && InTree(s, c) && s.frames[c].parent == InPool(g) && InTree(s, g) && c != g
    requires s.frames[g].node.Inner? && s.frames[c].bitmap == {} && s.frames[c].pos == HOT
    requires cut.Some? ==> c != cut.value.frame
    requires var n := Seen(s, cut).frames[g].node; n.Inner? && i < |n.children| && n.children[i] == Tagged(c)
    ensures Choosable(s, cut, c, g, i)
    ensures var n := Seen(s, cut).frames[g].node;
            |n.children| == |n.keys| + 1 && CheckParentChildInfo(n, s.frames[c], c)
  {
    hide FindIdx, Accounted, Mapped;
    assert FrameSound(s, g);
    var m := Seen(s, cut).frames[g].node;
    if cut.Some? && g == cut.value.frame {
      assert s.frames[g].node.children[i] == m.children[i];
      CutInterval(s.frames[g].node, i);
    }
    assert SlotSound(s, g, i);
    var j := FindIdx(m.children, Tagged(c));
    assert s.frames[g].node.children[j] == m.children[j];
    assert SlotSound(s, g, j);
    OneSlot(s, g, i, j);
    ChildIntervalProper(s.frames[g].node, i);
  }

  /** Slots below the cut keep their intervals. */
  lemma CutInterval(n: Node<Slot>, i: nat)
    requires NodeOk(n) && n.Full() && n.Inner?
    ensures var l := Split(n).left;
            i < |l.children| ==> i <= |l.keys| && l.ChildLo(i) == n.ChildLo(i) && l.ChildHi(i) == n.ChildHi(i)
                                 && l.lo <= l.ChildLo(i) && l.ChildHi(i) <= l.hi
  {
    SplitOk(n);
    var l := Split(n).left;
    if i < |l.children| {
      ChildIntervalProper(l, i);
    }
  }

  /** A moved child is in no slot below the cut. */
  lemma NotBelow(s: State, f: FrameId, j: nat)
    requires Swizzled(s) && FullInner(s, f) && j < |s.frames[f].node.children| && s.frames[f].node.children[j].Tagged?
    requires j >= |Split(s.frames[f].node).left.children|
    ensures s.frames[f].node.children[j] !in Split(s.frames[f].node).left.children
  {
    var n := s.frames[f].node;
    var l := Split(n).left.children;
    if n.children[j] in l {
      var i :| 0 <= i < |l| && l[i] == n.children[j];
      assert n.children[i] == n.children[j];
      assert SlotSound(s, f, i) && SlotSound(s, f, j);
      OneSlot(s, f, i, j);
    }
  }

  /** A cut page's upper limit does not match its parent's slot. */
  lemma CheckFails(s: State, f: FrameId, g: FrameId, i: nat)
    requires FullInner(s, f) && NodeOk(s.frames[f].node) && g < |s.frames| && g != f && s.frames[g].node.Inner?
    requires SlotsSound(s, g) && SlotSound(s, g, i) && s.frames[g].node.children[i] == Tagged(f)
    ensures |s.frames[g].node.children| == |s.frames[g].node.keys| + 1
    ensures !CheckParentChildInfo(s.frames[g].node, Cut(s.frames[f]), f)
  {
    var m, l := s.frames[g].node, Cut(s.frames[f]).node;
    SplitOk(s.frames[f].node);
    forall j | 0 <= j < |m.children| ensures !(m.ChildLo(j) == l.lo && m.ChildHi(j) == l.hi) {
      ChildIntervalProper(m, i);
      ChildIntervalProper(m, j);
      if i < j {
        SlotsDisjoint(m, i, j);
      } else if j < i {
        SlotsDisjoint(m, j, i);
      }
    }
  }

  // --- Sampling before the cut and after it ---

  lemma CleanCommutes(s: State, f: FrameId, c: FrameId)
    requires f < |s.frames| && NodeOk(s.frames[f].node) && s.frames[f].node.Full() && c < |s.frames| && c != f
    requires Plain(s.frames[c].node)
    ensures Window(Cleaned(s, c), f) == Cleaned(Window(s, f), c)
  {
    PlainUnswizzled(s, s.frames[c].node);
    PlainUnswizzled(Window(s, f), s.frames[c].node);
  }

  /** Unhooking child i below the cut. */
  lemma CutUnhooked(page: Page, i: nat, sl: Slot)
    requires NodeOk(page.node) && page.node.Full() && page.node.Inner? && i < |Split(page.node).left.children|
    ensures i < |page.node.children|
    ensures var page' := page.(node := page.node.(children := page.node.children[i := sl]),
                               bitmap := page.bitmap - {i});
            && NodeOk(page'.node) && page'.node.Full()
            && Cut(page') == Cut(page).(node := Cut(page).node.(children := Cut(page).node.children[i := sl]),
                                        bitmap := Cut(page).bitmap - {i})
  {
  }

  lemma DemoteCommutes(s: State, f: FrameId, c: FrameId, g: FrameId, i: nat, b: nat)
    requires f < |s.frames| && NodeOk(s.frames[f].node) && s.frames[f].node.Full() && s.frames[f].node.Inner?
    requires c < |s.frames| && c != f && g < |s.frames| && g != c && s.frames[g].node.Inner? && b < |s.cool|
    requires i < if g == f then |Split(s.frames[f].node).left.children| else |s.frames[g].node.children|
    ensures i < |s.frames[g].node.children|
    ensures var s1 := Demote(s, c, g, i, b);
            && NodeOk(s1.frames[f].node) && s1.frames[f].node.Full()
            && Window(s1, f) == Demote(Window(s, f), c, g, i, b)
  {
    if g == f {
      CutUnhooked(s.frames[f], i, Untagged(s.frames[c].remote));
    }
  }

  lemma RecycleCommutes(s: State, f: FrameId, b: nat)
    requires f < |s.frames| && NodeOk(s.frames[f].node) && s.frames[f].node.Full()
    requires b < |s.cool| && s.cool[b] != [] && forall e | e in s.cool[b] :: e.page < |s.frames| && e.page != f
    ensures Recycled(s, b).frames[f] == s.frames[f] && Window(Recycled(s, b), f) == Recycled(Window(s, f), b)
  {
    var e := s.cool[b][|s.cool[b]| - 1];
    assert e in s.cool[b];
  }

  lemma SampleFacts(s: State, st: Store, f: FrameId, c: FrameId, g: FrameId, i: nat, b: nat)
    requires AtWindow(s, st, f) && Samplable(s, c, g, i) && c != f && b < |s.cool|
    ensures Plain(s.frames[c].node)
    ensures f < |s.frames| && NodeOk(s.frames[f].node) && s.frames[f].node.Full() && s.frames[f].node.Inner?
    ensures forall e | e in s.cool[b] :: e.page < |s.frames| && e.page != f
  {
    CoolPagesInPool(s, {}, b);
    assert FrameSound(s, c);
    NoBitsNoTags(s, c);
  }

  /** Cooling a frame that did not move comes to the same before the cut as after it. */
  lemma SampleCommutes(s: State, st: Store, f: FrameId, c: FrameId, g: FrameId, i: nat, b: nat)
    requires AtWindow(s, st, f) && Samplable(s, c, g, i) && c != f && b < |s.cool|
    requires g == f ==> i < |Split(s.frames[f].node).left.children|
    ensures forall e | e in s.cool[b] :: e.page < |s.frames|
    ensures var s1 := Sampled(s, c, g, i, b);
            && f < |s1.frames| && NodeOk(s1.frames[f].node) && s1.frames[f].node.Full()
            && Window(s1, f) == Sampled(Window(s, f), c, g, i, b)
  {
    hide Window;
    SampleFacts(s, st, f, c, g, i, b);
    hide AtWindow;
    hide Inv;
    hide Retired;
    hide Plain;
    CleanCommutes(s, f, c);
    RetireCommutes(Cleaned(s, c), f, c, g, i, b);
  }

  lemma RetireCommutes(s: State, f: FrameId, c: FrameId, g: FrameId, i: nat, b: nat)
    requires f < |s.frames| && NodeOk(s.frames[f].node) && s.frames[f].node.Full() && s.frames[f].node.Inner?
    requires c < |s.frames| && c != f && g < |s.frames| && g != c && s.frames[g].node.Inner? && b < |s.cool|
    requires i < if g == f then |Split(s.frames[f].node).left.children| else |s.frames[g].node.children|
    requires forall e | e in s.cool[b] :: e.page < |s.frames| && e.page != f
    ensures i < |s.frames[g].node.children|
    ensures var s1 := Retired(s, c, g, i, b);
            && NodeOk(s1.frames[f].node) && s1.frames[f].node.Full()
            && Window(s1, f) == Retired(Window(s, f), c, g, i, b)
  {
    hide Recycled;
    DemoteCommutes(s, f, c, g, i, b);
    if |s.cool[b]| >= NUM_ENTRIES {
      RecycleCommutes(Demote(s, c, g, i, b), f, b);
    }
  }

  /** ... and leaves what the split will move as it was. */
  lemma SampleKeepsMoved(s: State, st: Store, f: FrameId, c: FrameId, g: FrameId, i: nat, b: nat)
    requires AtWindow(s, st, f) && Samplable(s, c, g, i) && c != f && b < |s.cool|
    requires g == f ==> i < |Split(s.frames[f].node).left.children|
    requires forall e | e in s.cool[b] :: e.page < |s.frames|
    ensures SameMoved(s, Sampled(s, c, g, i, b), f)
  {
    SampleFacts(s, st, f, c, g, i, b);
    DemoteKeepsMoved(s, f, c, g, i, b);
    var s1 := Sampled(s, c, g, i, b);
    assert s1.frames[f] == Demote(Cleaned(s, c), c, g, i, b).frames[f] by {
      if |s.cool[b]| >= NUM_ENTRIES { assert s.cool[b][|s.cool[b]| - 1] in s.cool[b]; }
    }
  }

  /** ... and what moves is none of it. */
  lemma MovedUntouched(page: Page, i: nat, sl: Slot)
    requires NodeOk(page.node) && page.node.Full() && page.node.Inner? && i < |Split(page.node).left.children|
    ensures i < |page.node.children|
    ensures var n, n' := page.node, page.node.(children := page.node.children[i := sl]);
            && NodeOk(n') && n'.Full() && Split(n').sep == Split(n).sep && Split(n').right == Split(n).right
            && |Split(n').left.children| == |Split(n).left.children|
            && HighBits(page.bitmap - {i}, |Split(n).left.children|) == HighBits(page.bitmap, |Split(n).left.children|)
  {
    var low := |Split(page.node).left.children|;
    assert forall j: nat :: HighBit(page.bitmap - {i}, low, j) <==> HighBit(page.bitmap, low, j);
  }

  lemma DemoteKeepsMoved(s: State, f: FrameId, c: FrameId, g: FrameId, i: nat, b: nat)
    requires f < |s.frames| && NodeOk(s.frames[f].node) && s.frames[f].node.Full() && s.frames[f].node.Inner?
    requires c < |s.frames| && g < |s.frames| && c != f && c != g && s.frames[g].node.Inner? && b < |s.cool|
    requires i < if g == f then |Split(s.frames[f].node).left.children| else |s.frames[g].node.children|
    ensures i < |s.frames[g].node.children| && SameMoved(s, Demote(Cleaned(s, c), c, g, i, b), f)
  {
    if g == f {
      MovedUntouched(s.frames[f], i, Untagged(s.frames[c].remote));
    }
    hide NodeOk, Split, HighBits;
  }

  /** Cooling a frame the cut page has nothing to do with, as the pool shows it. */
  lemma ChosenKeeps(s: State, st: Store, cut: Option<Cutting>, c: FrameId, g: FrameId, i: nat, b: nat)
    requires Sound(s, st, cut) && Choosable(s, cut, c, g, i) && b < |s.cool|
    ensures forall e | e in s.cool[b] :: e.page < |s.frames|
    ensures var s1 := Sampled(s, c, g, i, b);
            && Kept(s, s1, st, cut) && Sound(s1, st, cut) && CooledOne(s, s1, c)
            && Seen(s1, cut) == Sampled(Seen(s, cut), c, g, i, b)
  {
    SampledKeeps(s, st, c, g, i, b);
    SampledIsCool(s, st, c, g, i, b);
    if cut.Some? {
      var f, s1 := cut.value.frame, Sampled(s, c, g, i, b);
      SampleCommutes(s, st, f, c, g, i, b);
      SampleKeepsMoved(s, st, f, c, g, i, b);
      WindowStays(s, s1, st, f, c);
    }
  }

  lemma SampledIsCool(s: State, st: Store, c: FrameId, g: FrameId, i: nat, b: nat)
    requires Inv(s, st, {}) && Samplable(s, c, g, i) && b < |s.cool|
    requires forall e | e in s.cool[b] :: e.page < |s.frames|
    ensures c < |Sampled(s, c, g, i, b).frames| && Sampled(s, c, g, i, b).frames[c].pos == COOL
  {
    CoolPagesInPool(s, {}, b);
    if |s.cool[b]| >= NUM_ENTRIES { assert s.cool[b][|s.cool[b]| - 1] in s.cool[b]; }
  }

  lemma WindowStays(s: State, s1: State, st: Store, f: FrameId, c: FrameId)
    requires AtWindow(s, st, f) && Inv(s1, st, {}) && Calmer(s, s1) && SameMoved(s, s1, f)
    requires c != f && Residents(s1) == Residents(s) - {c}
    ensures AtWindow(s1, st, f)
  {
    assert f in Residents(s) && f in Residents(s1);
    assert FrameSound(s1, f);
    forall x: FrameId | InTree(s1, x) ensures s1.frames[x].pos == HOT {
      assert InTree(s, x) && Stays(s, s1, x);
    }
  }

  // --- Cleared parent pointers make no difference to the cooling of other frames ---

  lemma FreedCleaned(w: State, loose: set<FrameId>, c: FrameId)
    requires c < |w.frames| && c !in loose
    ensures Freed(Cleaned(w, c), loose) == Cleaned(Freed(w, loose), c)
  {
    assert w.frames[c].dirty ==> Unswizzle(Freed(w, loose), w.frames[c].node) == Unswizzle(w, w.frames[c].node);
    assert Freed(Cleaned(w, c), loose).frames == Cleaned(Freed(w, loose), c).frames;
  }

  lemma FreedDemote(w: State, loose: set<FrameId>, c: FrameId, g: FrameId, i: nat, b: nat)
    requires c < |w.frames| && g < |w.frames| && c != g && c !in loose && b < |w.cool|
    requires w.frames[g].node.Inner? && i < |w.frames[g].node.children|
    ensures Freed(Demote(w, c, g, i, b), loose) == Demote(Freed(w, loose), c, g, i, b)
  {
    assert Freed(Demote(w, c, g, i, b), loose).frames == Demote(Freed(w, loose), c, g, i, b).frames;
  }

  lemma FreedRecycled(w: State, loose: set<FrameId>, b: nat)
    requires b < |w.cool| && w.cool[b] != [] && forall e | e in w.cool[b] :: e.page < |w.frames|
    ensures Freed(Recycled(w, b), loose) == Recycled(Freed(w, loose), b)
  {
    assert Freed(Recycled(w, b), loose).frames == Recycled(Freed(w, loose), b).frames;
  }

  lemma FreedSampled(w: State, loose: set<FrameId>, c: FrameId, g: FrameId, i: nat, b: nat)
    requires c < |w.frames| && g < |w.frames| && c != g && c !in loose && b < |w.cool|
    requires w.frames[g].node.Inner? && i < |w.frames[g].node.children|
    requires forall e | e in w.cool[b] :: e.page < |w.frames|
    ensures Freed(Sampled(w, c, g, i, b), loose) == Sampled(Freed(w, loose), c, g, i, b)
  {
    hide Recycled;
    FreedCleaned(w, loose, c);
    var w1 := Cleaned(w, c);
    FreedDemote(w1, loose, c, g, i, b);
    if |w.cool[b]| >= NUM_ENTRIES {
      FreedRecycled(Demote(w1, c, g, i, b), loose, b);
    }
  }

  /** What the code that cools the frame needs to know of the pool. */
  lemma ChosenReady(s: State, st: Store, cut: Option<Cutting>, c: FrameId, g: FrameId, i: nat, b: nat)
    requires Sound(s, st, cut) && Choosable(s, cut, c, g, i) && b < |s.cool|
    ensures var w := Seen(s, cut);
            && w.frames[c] == s.frames[c] && Plain(w.frames[c].node) && w.frames[c].bitmap == {}
               && w.frames[c].remote in w.disk
            && c != g && w.frames[g].node.Inner? && i < |w.frames[g].node.children| && FiledRight(w, b, c)
  {
    assert FrameSound(s, c) && Mirrors(s, st, c);
    assert DiskSound(s, st, s.frames[c].remote);
    NoBitsNoTags(s, c);
    CoolPagesInPool(s, {}, b);
  }

  /** A moved child hangs from the cut page, which no longer has a slot for it. */
  lemma MovedHangs(s: State, st: Store, f: FrameId, c: FrameId)
    requires AtWindow(s, st, f) && Tagged(c) in Moved(s, f)
    ensures c != f && InTree(s, c) && s.frames[c].parent == InPool(f)
    ensures Tagged(c) !in Split(s.frames[f].node).left.children
  {
    var n := s.frames[f].node;
    var o :| 0 <= o < |Moved(s, f)| && Moved(s, f)[o] == Tagged(c);
    var j := |Split(n).left.children| + o;
    assert n.children[j] == Tagged(c);
    ChildOf(s, f, j);
    NotBelow(s, f, j);
  }

  lemma MovedJudged(s: State, st: Store, cut: Option<Cutting>, loose: set<FrameId>, c: FrameId, idx: int)
    requires Sound(s, st, cut) && cut.Some? && Tagged(c) in cut.value.moved && InTree(s, c)
    requires Seen(s, cut).frames[c].bitmap == {} && (idx == -1 || HangsSeen(s, cut, c, idx))
    ensures c != cut.value.frame && s.frames[c].parent.InPool? && Harmful(s, cut)
    ensures Judge(Shown(s, cut, loose).frames, c, idx) == if c in loose then Orphan(c) else Stale(c)
  {
    var f := cut.value.frame;
    MovedHangs(s, st, f, c);
    SplitOk(s.frames[f].node);
  }

  lemma CutJudged(s: State, st: Store, cut: Option<Cutting>, loose: set<FrameId>, idx: int)
    requires Sound(s, st, cut) && LooseOk(cut, loose) && cut.Some?
    requires var c := cut.value.frame; Seen(s, cut).frames[c].bitmap == {} && (idx == -1 || HangsSeen(s, cut, c, idx))
    ensures var c := cut.value.frame;
            && c !in loose
            && if s.frames[c].parent == SuperRoot then Judge(Shown(s, cut, loose).frames, c, idx) == Skip
               else s.frames[c].parent.InPool? && Judge(Shown(s, cut, loose).frames, c, idx) == Mismatch(c)
                    && Harmful(s, cut)
  {
    var f := cut.value.frame;
    if f in loose { MovedHangs(s, st, f, f); }
    assert FrameSound(s, f);
    if s.frames[f].parent.InPool? {
      var g := s.frames[f].parent.frame;
      assert FrameSound(s, g);
      LevelBelowParent(s, f);
      var i :| 0 <= i < |s.frames[g].node.children| && s.frames[g].node.children[i] == Tagged(f);
      assert SlotSound(s, g, i);
      CheckFails(s, f, g, i);
    }
  }

  /** The same with parent pointers cleared elsewhere. */
  lemma ShownReady(s: State, st: Store, cut: Option<Cutting>, loose: set<FrameId>, c: FrameId, g: FrameId, i: nat,
                   b: nat)
    requires Sound(s, st, cut) && Choosable(s, cut, c, g, i) && c !in loose && b < |s.cool|
    ensures var w := Shown(s, cut, loose);
            && w.frames[c] == s.frames[c] && Plain(w.frames[c].node) && w.frames[c].bitmap == {}
               && w.frames[c].remote in w.disk
            && c != g && w.frames[g].node.Inner? && i < |w.frames[g].node.children| && FiledRight(w, b, c)
    ensures FiledRight(s, b, c)
  {
    ChosenReady(s, st, cut, c, g, i, b);
  }

  /** Cooling a frame the cut page has nothing to do with, as the pool shows it in the end. */
  lemma ChosenShown(s: State, st: Store, cut: Option<Cutting>, loose: set<FrameId>, c: FrameId, g: FrameId, i: nat,
                    b: nat)
    requires Sound(s, st, cut) && Choosable(s, cut, c, g, i) && c !in loose && c != g && b < |s.cool|
    requires var w := Shown(s, cut, loose); w.frames[g].node.Inner? && i < |w.frames[g].node.children|
    requires FiledRight(s, b, c)
    ensures var s1, w := Sampled(s, c, g, i, b), Shown(s, cut, loose);
            && Kept(s, s1, st, cut) && Sound(s1, st, cut) && CooledOne(s, s1, c)
            && Shown(s1, cut, loose) == Sampled(w, c, g, i, b)
  {
    hide Sampled;
    hide Freed;
    ChosenKeeps(s, st, cut, c, g, i, b);
    ChosenReady(s, st, cut, c, g, i, b);
    FreedSampled(Seen(s, cut), loose, c, g, i, b);
  }

  /** A parent pointer cleared elsewhere makes no difference to the branch. */
  lemma FreedJudged(w: State, loose: set<FrameId>, c: FrameId, idx: int)
    requires c < |w.frames| && c !in loose
    ensures Judge(Freed(w, loose).frames, c, idx) == Judge(w.frames, c, idx)
  {
  }

  /** A page the cut has nothing to do with. */
  lemma OtherJudged(s: State, st: Store, cut: Option<Cutting>, loose: set<FrameId>, c: FrameId, idx: int)
    requires Sound(s, st, cut) && LooseOk(cut, loose)
    requires cut.Some? ==> c != cut.value.frame && Tagged(c) !in cut.value.moved
    requires InTree(s, c) && s.frames[c].pos == HOT && Seen(s, cut).frames[c].bitmap == {}
    requires idx == -1 || HangsSeen(s, cut, c, idx)
    ensures var choice := Judge(Shown(s, cut, loose).frames, c, idx);
            && c !in loose && (choice.Skip? <==> s.frames[c].parent == SuperRoot)
            && (choice.Skip? || (choice.Cool? && choice.page == c && Choosable(s, cut, c, choice.parent, choice.idx)))
  {
    hide Freed, CheckParentChildInfo, Choosable;
    FreedJudged(Seen(s, cut), loose, c, idx);
    if s.frames[c].parent != SuperRoot {
      BottomChoosable(s, st, cut, c);
    }
  }

  /** Far fewer frames move than a call of sample_page has tries. */
  lemma LooseFew(s: State, st: Store, cut: Option<Cutting>, loose: set<FrameId>)
    requires Sound(s, st, cut) && LooseOk(cut, loose)
    ensures |loose| <= INNER_SLOTS
  {
    if cut.Some? {
      SplitOk(s.frames[cut.value.frame].node);
      FewNamed(cut.value.moved, loose);
    } else {
      assert loose == {};
    }
  }

  lemma {:induction false} FewNamed(slots: seq<Slot>, named: set<FrameId>)
    requires forall c | c in named :: Tagged(c) in slots
    ensures |named| <= |slots|
  {
    if slots == [] {
      assert named == {};
    } else {
      var last, rest := slots[|slots| - 1], slots[..|slots| - 1];
      var others := if last.Tagged? then named - {last.frame} else named;
      FewNamed(rest, others);
    }
  }

  /** The branch taken at the bottom of a walk: the page is under super_root_; or it may be cooled and the
      cut has nothing to do with it; or it has moved and loses its parent pointer; or harm is done. */
  lemma JudgedInWindow(s: State, st: Store, cut: Option<Cutting>, loose: set<FrameId>, c: FrameId, idx: int)
    requires Sound(s, st, cut) && LooseOk(cut, loose)
    requires InTree(s, c) && s.frames[c].pos == HOT && Seen(s, cut).frames[c].bitmap == {}
    requires idx == -1 || HangsSeen(s, cut, c, idx)
    ensures var choice := Judge(Shown(s, cut, loose).frames, c, idx);
            && (choice.Skip? <==> s.frames[c].parent == SuperRoot)
            && (choice.Cool? ==> choice.page == c && c !in loose && Choosable(s, cut, c, choice.parent, choice.idx)
                                 && (cut.Some? ==> Tagged(c) !in cut.value.moved))
            && (choice.Stale? ==> choice.page == c && c !in loose && cut.Some? && Tagged(c) in cut.value.moved)
            && (choice.Orphan? ==> choice.page == c && cut.Some? && Tagged(c) in cut.value.moved)
            && (choice.Stale? || Fatal(choice) ==> Harmful(s, cut))
            && (Fatal(choice) <==> cut.Some? && (c in loose || (c == cut.value.frame && s.frames[c].parent.InPool?)))
  {
    hide Judge, Shown, Inv, AtWindow, HangsSeen, Choosable;
    if cut.Some? && Tagged(c) in cut.value.moved {
      MovedJudged(s, st, cut, loose, c, idx);
    } else if cut.Some? && c == cut.value.frame {
      CutJudged(s, st, cut, loose, idx);
    } else {
      OtherJudged(s, st, cut, loose, c, idx);
    }
  }

  /** Without a hazard the branch taken at the bottom of a walk is none or the cooling one. */
  lemma JudgedRight(s: State, st: Store, cut: Option<Cutting>, c: FrameId, idx: int)
    requires Sound(s, st, cut) && !Harmful(s, cut)
    requires InTree(s, c) && s.frames[c].pos == HOT && Seen(s, cut).frames[c].bitmap == {}
    requires idx == -1 || HangsSeen(s, cut, c, idx)
    ensures var choice := Judge(Seen(s, cut).frames, c, idx);
            && (choice.Skip? || choice.Cool?)
            && (choice.Cool? ==> choice.page == c && Choosable(s, cut, c, choice.parent, choice.idx))
            && (choice.Skip? <==> s.frames[c].parent == SuperRoot)
    ensures Judge(Seen(s, cut).frames, c, idx).Cool? && cut.Some? ==> Tagged(c) !in cut.value.moved
  {
    FreedNone(Seen(s, cut));
    JudgedInWindow(s, st, cut, {}, c, idx);
  }
}
