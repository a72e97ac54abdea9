/** The state of the buffer pool, its two indexes and the backend, as one value, and the
    invariant that every operation on it keeps. CacheManager.dfy has the code that moves
    from state to state; the steps themselves and what they keep are in CacheSteps.dfy. */
module CacheState {
  import opened Types
  import opened Node
  import opened BPlusTree

  /** pos_state: where a pool slot stands (include/Types.h, PosState). */
  datatype PosState = REMOTE | COOL | HOT | LOCAL | PINNED

  /** parent_ptr: null, the heap node super_root_ of level 255, or a pool frame. */
  datatype Parent = NoParent | SuperRoot | InPool(frame: FrameId)

  /** One PAGE_SIZE block, in the pool or in the backend; memcpy copies it whole. */
  datatype Page = Page(remote: GlobalAddress, bitmap: set<nat>, parent: Parent,
                       pos: PosState, dirty: bool, node: Node<Slot>)

  const NULL: GlobalAddress := GlobalAddress(0, 0)

  /** A block of zero bytes. */
  const BLANK: Page := Page(NULL, {}, NoParent, REMOTE, false, Leaf(0, 0, []))

  /** An entry of the cooling table: the address it was filed under and the frame. */
  datatype CoolEntry = CoolEntry(key: GlobalAddress, page: FrameId)

  datatype State = State(
    frames: seq<Page>,                    // the pool
    disk: map<GlobalAddress, Page>,       // allocated backend pages
    cool: seq<seq<CoolEntry>>,            // cooling table, newest entry first in each bucket
    pages: map<GlobalAddress, FrameId>,   // page table
    free: seq<FrameId>,                   // local_page_set
    head: nat,                            // first frame never handed out
    dynamic: bool)                        // state == 1

  /** Resident in the tree: a frame that swizzled pointers may name. */
  predicate InTree(s: State, f: FrameId) {
    f < |s.frames| && (s.frames[f].pos == HOT || s.frames[f].pos == PINNED)
  }

  // --- What a page means ---

  /** The page body with every child given by its backend address. */
  function Lift(n: Node<GlobalAddress>): Node<Slot> {
    match n
    case Leaf(lo, hi, es) => Leaf(lo, hi, es)
    case Inner(level, lo, hi, keys, cs) =>
      Inner(level, lo, hi, keys, seq(|cs|, i requires 0 <= i < |cs| => Untagged(cs[i])))
  }

  /** The slot leads to address a, directly or through the frame holding the page of a. */
  predicate LeadsTo(s: State, sl: Slot, a: GlobalAddress) {
    match sl
    case Untagged(x) => x == a
    case Tagged(c) => c < |s.frames| && s.frames[c].remote == a
  }

  /** Page body n says n' once its swizzled children are replaced by their addresses. */
  ghost predicate Says(s: State, n: Node<Slot>, n': Node<GlobalAddress>) {
    match n
    case Leaf(lo, hi, es) => n' == Leaf(lo, hi, es)
    case Inner(level, lo, hi, keys, cs) =>
      && n'.Inner? && n'.level == level && n'.lo == lo && n'.hi == hi && n'.keys == keys
      && |n'.children| == |cs|
      && forall i | 0 <= i < |cs| :: LeadsTo(s, cs[i], n'.children[i])
  }

  predicate Plain(n: Node<Slot>) {
    n.Inner? ==> forall i | 0 <= i < |n.children| :: n.children[i].Untagged?
  }

  // --- Swizzling ---

  /** Slot i of frame f: its bitmap bit, its tag and the frame it names agree. */
  ghost predicate SlotSound(s: State, f: FrameId, i: nat) {
    && f < |s.frames| && s.frames[f].node.Inner?
    && var n := s.frames[f].node;
    && i < |n.children| && i <= |n.keys|
    && (i in s.frames[f].bitmap <==> n.children[i].Tagged?)
    && (n.children[i].Tagged? ==>
          var c := n.children[i].frame;
          InTree(s, c) && s.frames[c].parent == InPool(f) && Fits(s.frames[c].node, n, i))
  }

  ghost predicate SlotsSound(s: State, f: FrameId)
    requires f < |s.frames|
  {
    var p := s.frames[f];
    && NodeOk(p.node)
    && (p.node.Leaf? ==> p.bitmap == {})
    && (p.node.Inner? ==>
          && (forall i | i in p.bitmap :: i < |p.node.children|)
          && (forall i {:trigger SlotSound(s, f, i)} | 0 <= i < |p.node.children| :: SlotSound(s, f, i)))
  }

  /** A resident frame hangs from super_root_ or from a slot of the resident frame it calls parent. */
  ghost predicate ParentSound(s: State, f: FrameId)
    requires f < |s.frames|
  {
    match s.frames[f].parent
    case NoParent => false
    case SuperRoot => true
    case InPool(g) => InTree(s, g) && s.frames[g].node.Inner? && Tagged(f) in s.frames[g].node.children
  }

  ghost predicate FrameSound(s: State, f: FrameId) {
    f < |s.frames| && SlotsSound(s, f) && ParentSound(s, f)
  }

  ghost predicate Swizzled(s: State) {
    forall f {:trigger FrameSound(s, f)} | InTree(s, f) :: FrameSound(s, f)
  }

  // --- The logical store ---

  /** Address a has a resident frame that is newer than the backend. */
  predicate Ahead(s: State, a: GlobalAddress) {
    a in s.pages && InTree(s, s.pages[a]) && s.frames[s.pages[a]].dirty
  }

  /** The backend page of a carries no tag, and is up to date unless a newer frame is resident. */
  ghost predicate DiskSound(s: State, st: Store, a: GlobalAddress) {
    && a in s.disk && a in st && s.disk[a].bitmap == {} && Plain(s.disk[a].node)
    && (Ahead(s, a) || (s.disk[a].remote == a && s.disk[a].node == Lift(st[a])))
  }

  /** A resident frame says what its address logically holds, and the page table knows it. */
  ghost predicate Mirrors(s: State, st: Store, f: FrameId) {
    && f < |s.frames|
    && var a := s.frames[f].remote;
    && a in st && Says(s, s.frames[f].node, st[a])
    && a in s.pages && s.pages[a] == f
  }

  ghost predicate Stored(s: State, st: Store) {
    && NodesOk(st)
    && (forall a {:trigger DiskSound(s, st, a)} | a in st :: DiskSound(s, st, a))
    && (forall f {:trigger Mirrors(s, st, f)} | InTree(s, f) :: Mirrors(s, st, f))
  }

  // --- Accounting: every frame is in one place ---

  ghost predicate InCool(s: State, f: FrameId) {
    exists b, j :: 0 <= b < |s.cool| && 0 <= j < |s.cool[b]| && s.cool[b][j].page == f
  }

  /** A cooling slot holds a clean, retired frame filed under its own address. */
  ghost predicate CoolSound(s: State, hand: set<FrameId>, e: CoolEntry) {
    && e.page < s.head && e.page < |s.frames| && e.page !in hand
    && s.frames[e.page].pos == COOL && s.frames[e.page].remote == e.key
  }

  ghost predicate CoolApart(s: State) {
    forall b, j, b', j' | 0 <= b < |s.cool| && 0 <= j < |s.cool[b]| && 0 <= b' < |s.cool| && 0 <= j' < |s.cool[b']| ::
      s.cool[b][j].page == s.cool[b'][j'].page ==> b == b' && j == j'
  }

  ghost predicate Placed(s: State, hand: set<FrameId>, f: FrameId) {
    InTree(s, f) || f in s.free || InCool(s, f) || f in hand
  }

  /** hand: frames taken from their place and not yet put in another. */
  ghost predicate Accounted(s: State, hand: set<FrameId>) {
    && s.head <= |s.frames| && (s.dynamic <==> s.head == |s.frames|)
    && (forall f | f in hand :: f < s.head && !InTree(s, f) && f !in s.free)
    && (forall i | 0 <= i < |s.free| :: s.free[i] < s.head && s.frames[s.free[i]].pos == LOCAL)
    && (forall i, j | 0 <= i < j < |s.free| :: s.free[i] != s.free[j])
    && (forall b, j | 0 <= b < |s.cool| && 0 <= j < |s.cool[b]| :: CoolSound(s, hand, s.cool[b][j]))
    && CoolApart(s)
    && (forall f {:trigger Placed(s, hand, f)} | 0 <= f < s.head :: Placed(s, hand, f))
    && (forall f | s.head <= f < |s.frames| :: s.frames[f].pos == REMOTE)
    && (forall f {:trigger s.frames[f].dirty} | 0 <= f < |s.frames| && s.frames[f].dirty :: InTree(s, f))
  }

  /** A page-table entry names a frame that still holds a copy of that address. */
  ghost predicate EntrySound(s: State, hand: set<FrameId>, a: GlobalAddress) {
    && a in s.pages && s.pages[a] < |s.frames| && s.pages[a] !in hand
    && s.frames[s.pages[a]].remote == a
    && (InTree(s, s.pages[a]) || s.frames[s.pages[a]].pos == COOL)
  }

  ghost predicate Mapped(s: State, hand: set<FrameId>) {
    forall a {:trigger EntrySound(s, hand, a)} | a in s.pages :: EntrySound(s, hand, a)
  }

  /** The invariant of the cache. st is what the addresses logically hold. */
  ghost predicate Inv(s: State, st: Store, hand: set<FrameId>) {
    Accounted(s, hand) && Mapped(s, hand) && Swizzled(s) && Stored(s, st)
  }

  // --- How acquiring a page may change the pool ---

  /** f stays resident with its identity. */
  predicate Stays(s: State, s': State, f: FrameId) {
    && f < |s.frames| && f < |s'.frames|
    && s'.frames[f].remote == s.frames[f].remote && s'.frames[f].pos == s.frames[f].pos
    && s'.frames[f].parent == s.frames[f].parent
  }

  /** Some resident frame holds address a. */
  ghost predicate HasHome(s: State, a: GlobalAddress) {
    exists f: FrameId :: InTree(s, f) && s.frames[f].remote == a
  }

  /** Only pages of resident frames were written back. */
  ghost predicate DiskCalm(s: State, s': State) {
    && (forall a :: a in s'.disk <==> a in s.disk)
    && forall a {:trigger s'.disk[a]} | a in s.disk :: s'.disk[a] == s.disk[a] || HasHome(s, a)
  }

  /** From s to s' frames only left the tree, and neither a pinned one nor one under super_root_ did. */
  ghost predicate Calmer(s: State, s': State) {
    && |s'.frames| == |s.frames| && DiskCalm(s, s')
    && (forall f {:trigger InTree(s', f)} | InTree(s', f) :: InTree(s, f) && Stays(s, s', f))
    && (forall f: FrameId {:trigger InTree(s, f)} | InTree(s, f)
        && (s.frames[f].pos == PINNED || s.frames[f].parent == SuperRoot) ::
          InTree(s', f))
  }

  lemma CalmerTransitive(s: State, s': State, s'': State)
    requires Calmer(s, s') && Calmer(s', s'')
    ensures Calmer(s, s'')
  {
    forall f | InTree(s'', f) ensures InTree(s, f) && Stays(s, s'', f) {
      assert InTree(s', f);
    }
    forall f: FrameId | InTree(s, f) && (s.frames[f].pos == PINNED || s.frames[f].parent == SuperRoot)
      ensures InTree(s'', f)
    {
      assert InTree(s', f);
    }
    forall a | a in s.disk ensures s''.disk[a] == s.disk[a] || HasHome(s, a) {
      assert s''.disk[a] == s'.disk[a] || HasHome(s', a);
      if HasHome(s', a) {
        var f: FrameId :| InTree(s', f) && s'.frames[f].remote == a;
        assert InTree(s, f) && Stays(s, s', f);
      }
    }
  }

  /** The resident frames; acquiring a page can only shrink this set. */
  ghost function Residents(s: State): set<FrameId> {
    set f | 0 <= f < |s.frames| && InTree(s, f)
  }
}
