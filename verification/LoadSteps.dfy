/** Bringing a page into the pool: pinning the parent, loading a child and swizzling it. */
module LoadSteps {
  import opened Types
  import opened Node
  import opened BPlusTree
  import opened CacheState
  import opened CacheSteps

  /** A page whose children are all given by address is sound wherever it is put. */
  lemma LiftedOk(n: Node<GlobalAddress>)
    requires NodeOk(n)
    ensures NodeOk(Lift(n)) && Plain(Lift(n)) && Lift(n).Level() == n.Level()
    ensures forall s: State :: Says(s, Lift(n), n)
  {
  }

  ghost predicate NotResident(s: State, a: GlobalAddress) {
    forall f: FrameId {:trigger InTree(s, f)} | InTree(s, f) :: s.frames[f].remote != a
  }

  /** Frames that left the tree left no address behind. */
  lemma CalmerNotResident(s: State, s': State, a: GlobalAddress)
    requires Calmer(s, s') && NotResident(s, a)
    ensures NotResident(s', a)
  {
    forall f: FrameId | InTree(s', f) ensures s'.frames[f].remote != a {
      assert InTree(s, f) && Stays(s, s', f);
    }
  }

  // --- Pinning ---

  function Repin(s: State, g: FrameId, pos: PosState): State
    requires g < |s.frames|
  {
    s.(frames := s.frames[g := s.frames[g].(pos := pos)])
  }

  /** Pinning and unpinning a resident frame changes nothing else. */
  lemma RepinKeeps(s: State, st: Store, g: FrameId, pos: PosState, hand: set<FrameId>)
    requires Inv(s, st, hand) && InTree(s, g) && (pos == HOT || pos == PINNED)
    ensures Inv(Repin(s, g, pos), st, hand)
  {
    var s' := Repin(s, g, pos);
    assert forall f: FrameId :: InTree(s', f) <==> InTree(s, f);
    forall h: FrameId | InTree(s', h) ensures FrameSound(s', h) && Mirrors(s', st, h) {
      assert FrameSound(s, h) && Mirrors(s, st, h);
      KeepFrame(s, s', h);
      KeepSays(s, s', h, st[s.frames[h].remote]);
    }
    forall a | a in st ensures DiskSound(s', st, a) {
      assert DiskSound(s, st, a);
    }
    RepinKeepsPlaces(s, st, g, pos, hand);
  }

  lemma RepinKeepsPlaces(s: State, st: Store, g: FrameId, pos: PosState, hand: set<FrameId>)
    requires Inv(s, st, hand) && InTree(s, g) && (pos == HOT || pos == PINNED)
    ensures Accounted(Repin(s, g, pos), hand) && Mapped(Repin(s, g, pos), hand)
  {
    var s' := Repin(s, g, pos);
    forall a | a in s'.pages ensures EntrySound(s', hand, a) {
      assert EntrySound(s, hand, a);
    }
    forall h | 0 <= h < s'.head ensures Placed(s', hand, h) {
      assert Placed(s, hand, h);
      assert InCool(s, h) ==> InCool(s', h);
    }
    forall b, j | 0 <= b < |s'.cool| && 0 <= j < |s'.cool[b]| ensures CoolSound(s', hand, s'.cool[b][j]) {
      assert CoolSound(s, hand, s.cool[b][j]);
    }
  }

  // --- Admitting a page (cache_insert) ---

  /** cache_insert: the page is copied into frame p and the page table is told. */
  function Admit(s: State, p: FrameId, page: Page): State
    requires p < |s.frames|
  {
    s.(frames := s.frames[p := page], pages := s.pages[page.remote := p])
  }

  /** cache_insert leaves the frame PINNED; its caller makes it HOT. */
  lemma AdmitThenHot(s: State, p: FrameId, page: Page, parent: Parent)
    requires p < |s.frames|
    ensures var s' := Admit(s, p, page.(pos := PINNED, parent := parent));
            && s'.frames[p] == page.(pos := PINNED, parent := parent)
            && s'.(frames := s'.frames[p := s'.frames[p].(pos := HOT)])
               == Admit(s, p, page.(pos := HOT, parent := parent))
  {
  }

  /** Admitting a page of a non-resident address puts the frame in hand to use. */
  lemma AdmitKeepsPlaces(s: State, st: Store, p: FrameId, page: Page)
    requires Inv(s, st, {p}) && p < |s.frames| && page.pos == HOT && NotResident(s, page.remote)
    ensures !InTree(s, p)
    ensures Accounted(Admit(s, p, page), {}) && Mapped(Admit(s, p, page), {})
  {
    var s' := Admit(s, p, page);
    assert p in {p};
    forall a | a in s'.pages ensures EntrySound(s', {}, a) {
      assert a != page.remote ==> EntrySound(s, {p}, a);
    }
    forall h | 0 <= h < s'.head ensures Placed(s', {}, h) {
      assert Placed(s, {p}, h);
      assert InCool(s, h) ==> InCool(s', h);
    }
    forall b, j | 0 <= b < |s'.cool| && 0 <= j < |s'.cool[b]| ensures CoolSound(s', {}, s'.cool[b][j]) {
      assert CoolSound(s, {p}, s.cool[b][j]);
    }
    forall i | 0 <= i < |s.free| ensures s'.frames[s.free[i]].pos == LOCAL {
      assert s.free[i] in s.free;
    }
  }

  // --- Loading child i of frame g (load_child) ---

  /** A backend page as it was read for address a. */
  ghost predicate Fetched(st: Store, buf: Page, a: GlobalAddress) {
    a in st && buf.remote == a && buf.bitmap == {} && buf.node == Lift(st[a])
  }

  function LoadAt(s: State, g: FrameId, i: nat, p: FrameId, buf: Page): State
    requires g < |s.frames| && p < |s.frames| && s.frames[g].node.Inner? && i < |s.frames[g].node.children|
  {
    var n := s.frames[g].node;
    var s1 := Admit(s, p, buf.(pos := HOT, parent := InPool(g)));
    s1.(frames := s1.frames[g := s.frames[g].(node := n.(children := n.children[i := Tagged(p)]),
                                             bitmap := s.frames[g].bitmap + {i})])
  }

  ghost predicate CanLoad(s: State, st: Store, g: FrameId, i: nat, p: FrameId, buf: Page) {
    && Inv(s, st, {p}) && p < |s.frames| && InTree(s, g) && s.frames[g].node.Inner?
    && i < |s.frames[g].node.children| && i <= |s.frames[g].node.keys|
    && s.frames[g].node.children[i] == Untagged(buf.remote)
    && Fetched(st, buf, buf.remote) && NotResident(s, buf.remote)
    && Fits(st[buf.remote], s.frames[g].node, i)
  }

  lemma LoadKeepsParentSlots(s: State, st: Store, g: FrameId, i: nat, p: FrameId, buf: Page)
    requires CanLoad(s, st, g, i, p, buf) && !InTree(s, p)
    ensures SlotsSound(LoadAt(s, g, i, p, buf), g)
  {
    var s' := LoadAt(s, g, i, p, buf);
    assert FrameSound(s, g);
    var n := s.frames[g].node;
    forall j | 0 <= j < |n.children| ensures SlotSound(s', g, j) {
      assert SlotSound(s, g, j);
    }
  }

  lemma LoadKeepsSwizzling(s: State, st: Store, g: FrameId, i: nat, p: FrameId, buf: Page)
    requires CanLoad(s, st, g, i, p, buf) && !InTree(s, p)
    ensures Swizzled(LoadAt(s, g, i, p, buf))
  {
    var s' := LoadAt(s, g, i, p, buf);
    assert NodeOk(st[buf.remote]);
    LiftedOk(st[buf.remote]);
    forall h: FrameId | InTree(s', h) ensures FrameSound(s', h) {
      if h == p {
        assert SlotsSound(s', p) by {
          forall j | 0 <= j && s'.frames[p].node.Inner? && j < |s'.frames[p].node.children|
            ensures SlotSound(s', p, j)
          {
          }
        }
        assert s'.frames[g].node.children[i] == Tagged(p);
      } else {
        assert FrameSound(s, h);
        if h == g {
          LoadKeepsParentSlots(s, st, g, i, p, buf);
        } else {
          KeepFrame(s, s', h);
        }
        assert ParentSound(s', h) by {
          if s.frames[h].parent == InPool(g) {
            var j :| 0 <= j < |s.frames[g].node.children| && s.frames[g].node.children[j] == Tagged(h);
            assert s'.frames[g].node.children[j] == Tagged(h);
          }
        }
      }
    }
  }

  lemma LoadKeepsPlaces(s: State, st: Store, g: FrameId, i: nat, p: FrameId, buf: Page)
    requires CanLoad(s, st, g, i, p, buf)
    ensures !InTree(s, p) && Accounted(LoadAt(s, g, i, p, buf), {}) && Mapped(LoadAt(s, g, i, p, buf), {})
  {
    var s1 := Admit(s, p, buf.(pos := HOT, parent := InPool(g)));
    AdmitKeepsPlaces(s, st, p, buf.(pos := HOT, parent := InPool(g)));
    var s' := LoadAt(s, g, i, p, buf);
    SamePlaces(s1, s', {});
  }

  /** Places depend on positions, addresses and dirtiness only. */
  lemma SamePlaces(s: State, s': State, hand: set<FrameId>)
    requires Accounted(s, hand) && Mapped(s, hand)
    requires |s'.frames| == |s.frames|
    requires forall f | 0 <= f < |s.frames| :: s'.frames[f].pos == s.frames[f].pos
                                               && s'.frames[f].remote == s.frames[f].remote
    requires forall f: FrameId | f < |s.frames| && s'.frames[f].dirty && !s.frames[f].dirty :: InTree(s, f)
    requires s'.cool == s.cool && s'.pages == s.pages && s'.free == s.free && s'.head == s.head
             && s'.dynamic == s.dynamic
    ensures Accounted(s', hand) && Mapped(s', hand)
  {
    forall a | a in s'.pages ensures EntrySound(s', hand, a) {
      assert EntrySound(s, hand, a);
    }
    forall h | 0 <= h < s'.head ensures Placed(s', hand, h) {
      assert Placed(s, hand, h);
      assert InCool(s, h) ==> InCool(s', h);
    }
    forall b, j | 0 <= b < |s'.cool| && 0 <= j < |s'.cool[b]| ensures CoolSound(s', hand, s'.cool[b][j]) {
      assert CoolSound(s, hand, s.cool[b][j]);
    }
  }

  /** Loading a child on a miss leaves the logical store as it was. */
  lemma LoadKeeps(s: State, st: Store, g: FrameId, i: nat, p: FrameId, buf: Page)
    requires CanLoad(s, st, g, i, p, buf)
    ensures Inv(LoadAt(s, g, i, p, buf), st, {})
  {
    var s' := LoadAt(s, g, i, p, buf);
    LoadKeepsPlaces(s, st, g, i, p, buf);
    LoadKeepsSwizzling(s, st, g, i, p, buf);
    LiftedOk(st[buf.remote]);
    forall h: FrameId | InTree(s', h) ensures Mirrors(s', st, h) {
      if h != p {
        assert FrameSound(s, h) && Mirrors(s, st, h);
        KeepSays(s, s', h, st[s.frames[h].remote]);
      }
    }
    forall a | a in st ensures DiskSound(s', st, a) {
      assert DiskSound(s, st, a);
      assert a in s.pages ==> EntrySound(s, {p}, a);
    }
  }

  /** Loading a page that hangs from super_root_. */
  lemma LoadTopKeeps(s: State, st: Store, p: FrameId, buf: Page)
    requires Inv(s, st, {p}) && p < |s.frames| && Fetched(st, buf, buf.remote) && NotResident(s, buf.remote)
    ensures Inv(Admit(s, p, buf.(pos := HOT, parent := SuperRoot)), st, {}) && !InTree(s, p)
  {
    var page := buf.(pos := HOT, parent := SuperRoot);
    var s' := Admit(s, p, page);
    AdmitKeepsPlaces(s, st, p, page);
    assert NodeOk(st[buf.remote]);
    LiftedOk(st[buf.remote]);
    assert SlotsSound(s', p) by {
      forall j | 0 <= j && page.node.Inner? && j < |page.node.children| ensures SlotSound(s', p, j) {
      }
    }
    forall h: FrameId | InTree(s', h) ensures FrameSound(s', h) && Mirrors(s', st, h) {
      if h != p {
        assert FrameSound(s, h) && Mirrors(s, st, h);
        KeepFrame(s, s', h);
        KeepSays(s, s', h, st[s.frames[h].remote]);
      }
    }
    forall a | a in st ensures DiskSound(s', st, a) {
      assert DiskSound(s, st, a);
      assert a in s.pages ==> EntrySound(s, {p}, a);
    }
  }
}
