/** The hazard of the split window is met in practice: a run of inserts with ascending keys into a pool
    of 61 frames comes to it. Every frame is handed out for the first time until the root is full; the
    next insert cuts the root, finds no frame, and samples with all sixty leaves swizzled. */
module HazardRun {
  import opened Types
  import opened Node
  import opened BPlusTree
  import opened CacheState
  import opened CacheSteps
  import opened LoadSteps
  import opened SplitSteps
  import opened SplitWindow
  import opened WindowRuns
  import opened TreeFacts
  import opened TreeDescent
  import opened TreeGrowth
  import opened CacheManager
  import opened LeanStoreTree

  const POOL: nat := INNER_SLOTS + 1

  /** The tree and its cache between two operations; off is the backend's curOffset. */
  datatype World = World(s: State, st: Store, slot: Slot, root: GlobalAddress, height: nat, m: map<Key, Value>,
                         off: nat)

  ghost predicate Sane(w: World) {
    TreeInv(w.s, w.st, w.slot, w.root, w.height, w.m)
  }

  // --- What the methods of the tree do while the pool warms up ---

  /** The address alloc returns next. */
  function Next(w: World): GlobalAddress {
    GlobalAddress(0, w.off)
  }

  /** ReservePage */
  function Allocated(w: World): World {
    w.(s := Reserve(w.s, Next(w)), off := w.off + PAGE_SIZE)
  }

  ghost predicate IsLeaf(w: World, f: FrameId) {
    f < |w.s.frames| && w.s.frames[f].node.Leaf? && w.s.frames[f].remote in w.st && w.st[w.s.frames[f].remote].Leaf?
  }

  /** StoreEntries, the end of an insert at leaf f */
  ghost function Put(w: World, f: FrameId, k: Key, v: Value): World
    requires IsLeaf(w, f)
  {
    var es := LeafInsert(w.s.frames[f].node.entries, k, v);
    w.(s := WriteLeaf(w.s, f, es), st := WithLeaf(w.st, w.s.frames[f].remote, es), m := w.m[k := v])
  }

  ghost predicate Divisible(w: World, f: FrameId, g: FrameId, i: nat) {
    && Sane(w) && FullChild(w.s, f, g, i) && w.s.frames[f].node.Leaf? && NodeOk(w.s.frames[f].node)
    && |w.s.frames[g].node.children| == |w.s.frames[g].node.keys| + 1
    && var ga := w.s.frames[g].remote;
    && ga in w.st && NodeOk(w.st[ga]) && w.st[ga].Inner? && i < |w.st[ga].children|
    && w.st[ga].children[i] in w.st && NodeOk(w.st[w.st[ga].children[i]]) && w.st[w.st[ga].children[i]].Full()
  }

  /** HalveLeafChild */
  ghost function Divided(w: World, f: FrameId, g: FrameId, i: nat, b: GlobalAddress): World
    requires Divisible(w, f, g, i)
  {
    w.(s := SplitLeafUnder(w.s, f, g, b), st := SplitUnder(w.st, w.s.frames[g].remote, i, b))
  }

  ghost predicate Absent(w: World, g: FrameId, i: nat) {
    && g < |w.s.frames| && w.s.frames[g].node.Inner? && i < |w.s.frames[g].node.children|
    && w.s.frames[g].node.children[i].Untagged? && w.s.frames[g].node.children[i].addr in w.s.disk
    && w.s.head < |w.s.frames|
  }

  /** LoadMissing, with a frame that was never handed out */
  ghost function Brought(w: World, g: FrameId, i: nat): World
    requires Absent(w, g, i)
  {
    var buf := w.s.disk[w.s.frames[g].node.children[i].addr];
    w.(s := Loaded(TakeFresh(Repin(w.s, g, PINNED)), g, i, w.s.head, buf))
  }

  ghost predicate FullRootLeaf(w: World) {
    && Sane(w) && w.slot.Tagged? && FullLeaf(w.s, w.slot.frame) && w.root in w.st && NodeOk(w.st[w.root])
       && w.st[w.root].Full()
    && w.s.head < |w.s.frames|
  }

  /** SplitRoot, when the root is a leaf */
  ghost function Raised(w: World): World
    requires FullRootLeaf(w)
  {
    var f, b, r, p := w.slot.frame, Next(w), Next(Allocated(w)), w.s.head;
    var halved := Reserve(SplitLeafTop(Allocated(w).s, f, b), r);
    var sep := Split(w.st[w.root]).sep;
    World(NewRoot(TakeFresh(halved), p, r, w.st[w.root].Level() + 1, sep, f, Untagged(b)), GrowRoot(w.st, w.root, b, r),
          Tagged(p), r, w.height + 1, w.m, w.off + 2 * PAGE_SIZE)
  }

  // --- One insert ---

  /** The search for k ends at frame f, a leaf with room. */
  ghost predicate EndsAt(w: World, f: FrameId, k: Key) {
    && Sane(w) && InTree(w.s, f) && IsLeaf(w, f) && !w.s.frames[f].node.Full() && w.s.frames[f].node.Covers(k)
  }

  ghost predicate RoomAtTop(w: World) {
    w.slot.Tagged? && w.slot.frame < |w.s.frames| && !w.s.frames[w.slot.frame].node.Full()
  }

  ghost predicate PutsAt(w: World, f: FrameId, k: Key, w': World) {
    EndsAt(w, f, k) && w' == Put(w, f, k, 0)
  }

  ghost predicate Completes(w: World, k: Key, w': World) {
    exists f :: PutsAt(w, f, k, w')
  }

  /** Nothing on the way is full. */
  ghost predicate InsertsAtOnce(w: World, k: Key, w': World) {
    RoomAtTop(w) && Completes(w, k, w')
  }

  /** The leaf responsible is full and hangs from the root: it is split, and its sibling loaded. */
  ghost predicate InsertsDividing(w: World, k: Key, f: FrameId, i: nat, w': World) {
    && RoomAtTop(w)
    && var g := w.slot.frame;
    && Divisible(Allocated(w), f, g, i) && i == LowerBound(w.s.frames[g].node.keys, k)
    && var w2 := Divided(Allocated(w), f, g, i, Next(w));
    && Absent(w2, g, i + 1)
    && Completes(Brought(w2, g, i + 1), k, w')
  }

  /** The root is a full leaf: it is split under a new root, and its sibling, responsible for k, loaded. */
  ghost predicate InsertsRaising(w: World, k: Key, w': World) {
    && FullRootLeaf(w)
    && var w2 := Raised(w);
    && Absent(w2, w2.slot.frame, 1) && LowerBound(w2.s.frames[w2.slot.frame].node.keys, k) == 1
    && Completes(Brought(w2, w2.slot.frame, 1), k, w')
  }

  ghost predicate Inserts(w: World, k: Key, w': World) {
    InsertsAtOnce(w, k, w') || (exists f, i :: InsertsDividing(w, k, f, i, w')) || InsertsRaising(w, k, w')
  }

  // --- Runs ---

  /** The constructor: a pool of 61 frames nobody has used, and the first leaf in its first frame. */
  ghost predicate Begins(w: World) {
    exists s :: Unused(s) && |s.frames| == POOL && s.disk == map[] && s.cool != [] && w == Founded(s)
  }

  ghost function Founded(s: State): World
    requires |s.frames| > 0
  {
    var a := GlobalAddress(0, PAGE_SIZE);
    var s1 := TakeFresh(s.(disk := map[a := EmptyLeaf(a)]));
    World(Admit(s1, 0, EmptyLeaf(a).(pos := HOT, parent := SuperRoot)), FirstStore(a), Tagged(0), a, 1, map[],
          2 * PAGE_SIZE)
  }

  ghost predicate InsertsSome(w: World, w': World) {
    exists k :: Inserts(w, k, w')
  }

  ghost predicate Turn(ws: seq<World>, i: nat) {
    i + 1 < |ws| && InsertsSome(ws[i], ws[i + 1])
  }

  /** From the constructor to w by inserts. */
  ghost predicate RunTo(ws: seq<World>, w: World) {
    && ws != [] && Begins(ws[0]) && ws[|ws| - 1] == w
    && forall i {:trigger Turn(ws, i)} | 0 <= i < |ws| - 1 :: Turn(ws, i)
  }

  ghost predicate Reached(w: World) {
    exists ws :: RunTo(ws, w)
  }

  lemma ReachNext(w: World, k: Key, w': World)
    requires Reached(w) && Inserts(w, k, w')
    ensures Reached(w')
  {
    hide Begins;
    hide Inserts;
    var ws :| RunTo(ws, w);
    var ws' := ws + [w'];
    assert InsertsSome(w, w');
    forall i | 0 <= i < |ws'| - 1 ensures Turn(ws', i) {
      assert i < |ws| - 1 ==> Turn(ws, i);
    }
    assert RunTo(ws', w');
  }

  // --- The steps keep the tree ---

  lemma PutKeeps(w: World, f: FrameId, k: Key)
    requires EndsAt(w, f, k)
    ensures Sane(Put(w, f, k, 0))
    ensures |LeafInsert(w.s.frames[f].node.entries, k, 0)| <= |w.s.frames[f].node.entries| + 1
    ensures (forall e | e in w.s.frames[f].node.entries :: e.key != k) ==>
              |LeafInsert(w.s.frames[f].node.entries, k, 0)| == |w.s.frames[f].node.entries| + 1
  {
    var a, n := w.s.frames[f].remote, w.s.frames[f].node;
    var es := LeafInsert(n.entries, k, 0);
    assert FrameSound(w.s, f) && Mirrors(w.s, w.st, f);
    InsertAtLeaf(w.st, w.root, w.height, w.m, a, k, 0);
    StoreLeafOk(w.st, w.root, w.height, a, es, n);
    LeafWritten(w.s, w.st, f, es, w.slot, w.root, w.height, w.m, w.m[k := 0]);
  }

  /** Backend addresses are handed out in order. */
  ghost predicate Fresh(w: World) {
    PAGE_SIZE <= w.off && forall a | a in w.s.disk :: a.offset < w.off
  }

  lemma AllocatedKeeps(w: World)
    requires Sane(w) && Fresh(w)
    ensures Sane(Allocated(w)) && Fresh(Allocated(w)) && Next(w) !in w.st && Reserved(Allocated(w).s, Next(w))
  {
    ReserveKeeps(w.s, w.st, Next(w));
    RootIsStill(w.s, Allocated(w).s, w.slot, w.root);
  }

  lemma CanDivide(w: World, f: FrameId, g: FrameId, i: nat, b: GlobalAddress)
    requires Sane(w) && FullChild(w.s, f, g, i) && w.s.frames[f].node.Leaf? && b !in w.st
    ensures Divisible(w, f, g, i) && f != g && NodeOk(w.s.frames[g].node)
            && CanSplit(w.st, w.root, w.height, w.s.frames[g].remote, i, b)
  {
    FullChildShape(w.s, w.st, w.slot, w.root, w.height, w.m, f, g, i, b);
  }

  lemma DividedKeeps(w: World, f: FrameId, g: FrameId, i: nat, b: GlobalAddress)
    requires Divisible(w, f, g, i) && b !in w.st
    ensures f != g && Sane(Divided(w, f, g, i, b))
  {
    CanDivide(w, f, g, i, b);
    LeafSplitWhole(w.s, Divided(w, f, g, i, b).s, w.st, Divided(w, f, g, i, b).st, w.slot, w.root, w.height, w.m, f, g,
                   i, b);
  }

  lemma CanBring(w: World, g: FrameId, i: nat)
    requires Sane(w) && InTree(w.s, g) && w.s.frames[g].node.Inner? && i < |w.s.frames[g].node.children|
    requires w.s.frames[g].node.children[i].Untagged? && !w.s.dynamic
    ensures Absent(w, g, i)
    ensures var a := w.s.frames[g].node.children[i].addr; Fetched(w.st, w.s.disk[a], a)
    ensures Inv(Repin(w.s, g, PINNED), w.st, {})
  {
    MissPinned(w.s, w.st, w.slot, w.root, w.height, w.m, g, i, w.s.frames[g].node.children[i].addr);
  }

  lemma BroughtKeeps(w: World, g: FrameId, i: nat)
    requires Sane(w) && InTree(w.s, g) && w.s.frames[g].node.Inner? && i < |w.s.frames[g].node.children|
    requires w.s.frames[g].node.children[i].Untagged? && !w.s.dynamic
    ensures Absent(w, g, i) && g != w.s.head && Sane(Brought(w, g, i))
    ensures w.s.frames[g].node.children[i].addr in w.st
    ensures Lift(w.st[w.s.frames[g].node.children[i].addr]) == w.s.disk[w.s.frames[g].node.children[i].addr].node
  {
    CanBring(w, g, i);
    var sp, p := Repin(w.s, g, PINNED), w.s.head;
    var s1, buf := TakeFresh(sp), w.s.disk[w.s.frames[g].node.children[i].addr];
    TakeFreshKeeps(sp, w.st);
    QuietCalms(sp, s1);
    MissReady(w.s, s1, w.st, w.slot, w.root, w.height, w.m, g, i, p, buf);
    MissDone(w.s, s1, w.st, w.slot, w.root, w.height, w.m, g, i, p, buf);
  }

  lemma RaisedKeeps(w: World)
    requires FullRootLeaf(w) && Fresh(w) && !w.s.dynamic
    ensures Sane(Raised(w)) && Fresh(Raised(w))
  {
    hide Split;
    var f, b, r, w1 := w.slot.frame, Next(w), Next(Allocated(w)), Allocated(w);
    AllocatedKeeps(w);
    LeafHalved(w1.s, w.st, w.slot, w.root, w.height, w.m, b);
    var s2 := SplitLeafTop(w1.s, f, b);
    RootlessReserve(s2, w.st, w.root, w.height, w.m, f, b, Untagged(b), r);
    var s3 := Reserve(s2, r);
    var st3 := HalvedAt(w.st, w.root, b);
    TakeFreshKeeps(s3, st3);
    QuietCalms(s3, TakeFresh(s3));
    NewRootWhole(s3, TakeFresh(s3), w.st, w.root, w.height, w.m, f, b, Untagged(b), w.s.head, r,
                 w.st[w.root].Level() + 1, Split(w.st[w.root]).sep);
  }

  // --- What ascending keys make of the tree ---

  /** Nothing has ever been cooled or given back. */
  ghost predicate Untapped(s: State) {
    |s.frames| == POOL && s.free == [] && s.cool != [] && forall b | 0 <= b < |s.cool| :: s.cool[b] == []
  }

  function PageOf(w: World, f: FrameId): Page {
    if f < |w.s.frames| then w.s.frames[f] else BLANK
  }

  /** The page in super_root_'s slot. */
  function Top(w: World): Page {
    if w.slot.Tagged? then PageOf(w, w.slot.frame) else BLANK
  }

  /** The frame in the last slot of a page. */
  function LastChildOf(page: Page): FrameId {
    if page.node.Inner? && page.node.children != [] && page.node.children[|page.node.children| - 1].Tagged?
    then page.node.children[|page.node.children| - 1].frame else 0
  }

  /** A leaf at the right end of the tree, all of its keys below x. */
  ghost predicate RightEnd(page: Page, x: nat) {
    page.node.Leaf? && page.node.lo < x && page.node.hi == KEY_MAX && forall e | e in page.node.entries :: e.key < x
  }

  /** Still one leaf. */
  ghost predicate Seedling(w: World, x: nat) {
    && Sane(w) && Fresh(w) && Untapped(w.s) && w.height == 1 && w.s.head == 1 && RightEnd(Top(w), x)
       && x <= |Top(w).node.entries| + 1
  }

  ghost predicate AllSwizzled(n: Node<Slot>) {
    n.Inner? && |n.children| == |n.keys| + 1 && forall i | 0 <= i < |n.children| :: n.children[i].Tagged?
  }

  /** A root over leaves, all of them resident and none ever cooled. f is the last of them. */
  ghost predicate Grown(w: World, f: FrameId, x: nat) {
    && Sane(w) && Fresh(w) && Untapped(w.s)
    && var n := Top(w).node;
    && AllSwizzled(n) && n.level == 1 && w.height == 2 && w.s.head == |n.keys| + 2 && f == LastChildOf(Top(w))
    && RightEnd(PageOf(w, f), x) && x <= 64 * |n.keys| + |PageOf(w, f).node.entries| + 64
  }

  lemma InsertedKeys(es: seq<Entry>, k: Key, v: Value)
    ensures forall e | e in LeafInsert(es, k, v) :: e in es || e.key == k
  {
  }

  /** A resident leaf at the right end takes key x. */
  lemma RightEndTakes(w: World, f: FrameId, x: Key)
    requires Sane(w) && InTree(w.s, f) && RightEnd(w.s.frames[f], x) && !w.s.frames[f].node.Full()
    ensures EndsAt(w, f, x) && Completes(w, x, Put(w, f, x, 0)) && Sane(Put(w, f, x, 0))
    ensures var page := Put(w, f, x, 0).s.frames[f];
            RightEnd(page, x as nat + 1) && |page.node.entries| == |w.s.frames[f].node.entries| + 1
  {
    assert Mirrors(w.s, w.st, f);
    assert PutsAt(w, f, x, Put(w, f, x, 0));
    PutKeeps(w, f, x);
    InsertedKeys(w.s.frames[f].node.entries, x, 0);
  }

  /** The root leaf fills up. */
  lemma SeedlingPut(w: World, x: nat) returns (w': World)
    requires Seedling(w, x) && !Top(w).node.Full()
    ensures x <= KEY_MAX && Inserts(w, x, w') && Seedling(w', x + 1)
    ensures |Top(w').node.entries| == |Top(w).node.entries| + 1
  {
    assert FrameSound(w.s, w.slot.frame);
    RightEndTakes(w, w.slot.frame, x);
    w' := Put(w, w.slot.frame, x, 0);
  }

  lemma LastLeafResident(w: World, f: FrameId, x: nat)
    requires Grown(w, f, x)
    ensures InTree(w.s, f) && InTree(w.s, w.slot.frame) && f != w.slot.frame && w.s.frames[f].node.Leaf?
    ensures NodeOk(Top(w).node) && NodeOk(PageOf(w, f).node) && |Top(w).node.keys| <= INNER_CAPACITY && x < KEY_MAX
    ensures SlotSound(w.s, w.slot.frame, |Top(w).node.keys|)
  {
    var g := w.slot.frame;
    assert FrameSound(w.s, g) && SlotSound(w.s, g, |Top(w).node.keys|);
    assert FrameSound(w.s, f);
  }

  /** The last leaf fills up. */
  lemma GrownPut(w: World, f: FrameId, x: nat) returns (w': World)
    requires Grown(w, f, x) && !PageOf(w, f).node.Full()
    ensures x <= KEY_MAX && Completes(w, x, w') && Grown(w', f, x + 1) && Top(w') == Top(w)
    ensures |PageOf(w', f).node.entries| == |PageOf(w, f).node.entries| + 1
  {
    LastLeafResident(w, f, x);
    RightEndTakes(w, f, x);
    w' := Put(w, f, x, 0);
  }

  // --- The last leaf is divided ---

  /** The last slot of the root is divided at its right end. */
  lemma HangsLast(n: Node<Slot>, sep: Key, b: GlobalAddress)
    requires NodeOk(n) && n.Inner? && !n.Full() && n.ChildLo(|n.keys|) < sep < n.ChildHi(|n.keys|)
    ensures InnerInsert(n, sep, Untagged(b)) == n.(keys := n.keys + [sep], children := n.children + [Untagged(b)])
  {
    SeparatorPlace(n, |n.keys|, sep);
  }

  lemma DividedShape(w: World, f: FrameId, g: FrameId, i: nat, b: GlobalAddress)
    requires Divisible(w, f, g, i) && f != g && NodeOk(w.s.frames[g].node) && i == |w.s.frames[g].node.keys|
             && SlotSound(w.s, g, i)
    ensures var s', n, h := Divided(w, f, g, i, b).s, w.s.frames[g].node, Split(w.s.frames[f].node);
            && |s'.frames| == |w.s.frames| && s'.head == w.s.head && s'.free == w.s.free && s'.cool == w.s.cool
            && s'.dynamic == w.s.dynamic && InTree(s', g)
            && s'.frames[g].node == n.(keys := n.keys + [h.sep], children := n.children + [Untagged(b)])
            && s'.disk == w.s.disk[b := Sibling(w.s.frames[f], b, NoParent, REMOTE)]
  {
    SplitOk(w.s.frames[f].node);
    HangsLast(w.s.frames[g].node, Split(w.s.frames[f].node).sep, b);
  }

  lemma BroughtShape(w: World, g: FrameId, i: nat)
    requires Absent(w, g, i) && g != w.s.head && InTree(w.s, g)
    ensures var s', n, p := Brought(w, g, i).s, w.s.frames[g].node, w.s.head;
            && |s'.frames| == |w.s.frames| && s'.head == w.s.head + 1 && s'.free == w.s.free && s'.cool == w.s.cool
            && s'.disk == w.s.disk && InTree(s', p)
            && s'.frames[g].node == n.(children := n.children[i := Tagged(p)])
            && s'.frames[p].node == w.s.disk[n.children[i].addr].node
  {
  }

  /** Keys above the last separator lead to the last slot. */
  lemma SearchesLast(w: World, f: FrameId, x: Key)
    requires Grown(w, f, x)
    ensures LowerBound(Top(w).node.keys, x) == |Top(w).node.keys|
  {
    LastLeafResident(w, f, x);
    var n := Top(w).node;
    assert forall i | 0 <= i < |n.keys| :: n.keys[i] <= n.ChildLo(|n.keys|);
  }

  /** ReservePage and HalveLeafChild on the last leaf. */
  lemma DivideLast(w: World, f: FrameId, x: nat) returns (w2: World)
    requires Grown(w, f, x) && PageOf(w, f).node.Full() && |Top(w).node.keys| < INNER_CAPACITY
    ensures var g, i := w.slot.frame, |Top(w).node.keys|;
            && Divisible(Allocated(w), f, g, i) && w2 == Divided(Allocated(w), f, g, i, Next(w))
            && Sane(w2) && Fresh(w2) && Untapped(w2.s) && w2.slot == w.slot && w2.height == w.height
               && w2.s.head == w.s.head && !w2.s.dynamic && InTree(w2.s, g)
            && Top(w2).node == Top(w).node.(keys := Top(w).node.keys + [Split(PageOf(w, f).node).sep],
                                            children := Top(w).node.children + [Untagged(Next(w))])
            && Next(w) in w2.s.disk && w2.s.disk[Next(w)].node == Split(PageOf(w, f).node).right
  {
    var w1, g, i := Allocated(w), w.slot.frame, |Top(w).node.keys|;
    LastLeafResident(w, f, x);
    AllocatedKeeps(w);
    assert FullChild(w1.s, f, g, i);
    CanDivide(w1, f, g, i, Next(w));
    DividedKeeps(w1, f, g, i, Next(w));
    assert FrameSound(w1.s, g) && SlotSound(w1.s, g, i);
    DividedShape(w1, f, g, i, Next(w));
    w2 := Divided(w1, f, g, i, Next(w));
  }

  /** load_child on the last slot of the root. */
  lemma SiblingBrought(w: World, g: FrameId, i: nat)
    requires Sane(w) && InTree(w.s, g) && w.s.frames[g].node.Inner? && i < |w.s.frames[g].node.children|
    requires w.s.frames[g].node.children[i].Untagged? && !w.s.dynamic
    ensures Absent(w, g, i) && Sane(Brought(w, g, i)) && (Fresh(w) ==> Fresh(Brought(w, g, i)))
    ensures Brought(w, g, i).slot == w.slot && Brought(w, g, i).height == w.height
    ensures var s', n, p := Brought(w, g, i).s, w.s.frames[g].node, w.s.head;
            && |s'.frames| == |w.s.frames| && s'.head == w.s.head + 1 && s'.free == w.s.free && s'.cool == w.s.cool
            && s'.disk == w.s.disk && InTree(s', p)
            && s'.frames[g].node == n.(children := n.children[i := Tagged(p)])
            && s'.frames[p].node == w.s.disk[n.children[i].addr].node
  {
    BroughtKeeps(w, g, i);
    BroughtShape(w, g, i);
  }

  /** The upper half of a leaf at the right end is one too, and has room. */
  lemma RightHalf(n: Node<Slot>, x: nat)
    requires NodeOk(n) && n.Leaf? && n.Full() && n.hi == KEY_MAX && forall e | e in n.entries :: e.key < x
    ensures var h := Split(n);
            && h.right.Leaf? && h.right.lo == h.sep < x && h.right.hi == KEY_MAX && 0 < |h.right.entries|
               && !h.right.Full()
            && forall e | e in h.right.entries :: e.key < x
  {
  }

  /** The children of root n have been joined by frame p, which holds page body half. */
  ghost predicate OneMoreLeaf(n: Node<Slot>, w3: World, p: FrameId, half: Node<Slot>) {
    && Sane(w3) && Fresh(w3) && Untapped(w3.s) && w3.height == 2
    && n.Inner? && |n.children| == |n.keys| + 1 && w3.s.head == |n.keys| + 3 && PageOf(w3, p).node == half
    && Top(w3).node.Inner? && |Top(w3).node.keys| == |n.keys| + 1 && Top(w3).node.level == n.level
    && Top(w3).node.children == n.children + [Tagged(p)]
  }

  /** ... and then load_child on the sibling. */
  lemma DivideAndBring(w: World, f: FrameId, x: nat) returns (w3: World)
    requires Grown(w, f, x) && PageOf(w, f).node.Full() && |Top(w).node.keys| < INNER_CAPACITY
    ensures NodeOk(PageOf(w, f).node) && OneMoreLeaf(Top(w).node, w3, w.s.head, Split(PageOf(w, f).node).right)
    ensures forall w' | x <= KEY_MAX && Completes(w3, x, w') :: Inserts(w, x, w')
  {
    hide Completes;
    hide Sane;
    hide RightEnd;
    hide Divided;
    hide Brought;
    hide Inserts;
    hide Divisible;
    hide Fresh;
    var g, i, p, n := w.slot.frame, |Top(w).node.keys|, w.s.head, Top(w).node;
    LastLeafResident(w, f, x);
    var w2 := DivideLast(w, f, x);
    SiblingBrought(w2, g, i + 1);
    w3 := Brought(w2, g, i + 1);
    assert (n.children + [Untagged(Next(w))])[i + 1 := Tagged(p)] == n.children + [Tagged(p)];
    forall w' | Completes(w3, x, w') ensures Inserts(w, x, w') {
      DividingInserts(w, f, x, w');
    }
  }

  /** Those are the steps an insert of x takes. */
  lemma DividingInserts(w: World, f: FrameId, x: Key, w': World)
    requires Grown(w, f, x) && |Top(w).node.keys| < INNER_CAPACITY
    requires var g, i := w.slot.frame, |Top(w).node.keys|;
             && Divisible(Allocated(w), f, g, i)
             && var w2 := Divided(Allocated(w), f, g, i, Next(w));
             && Absent(w2, g, i + 1) && Completes(Brought(w2, g, i + 1), x, w')
    ensures Inserts(w, x, w')
  {
    SearchesLast(w, f, x);
    assert InsertsDividing(w, x, f, |Top(w).node.keys|, w');
  }

  lemma MoreIsGrown(n: Node<Slot>, w3: World, p: FrameId, half: Node<Slot>, x: nat)
    requires OneMoreLeaf(n, w3, p, half) && n.level == 1 && half.Leaf? && x <= 64 * |n.keys| + |half.entries| + 128
    requires forall i | 0 <= i < |n.children| :: n.children[i].Tagged?
    requires half.lo < x && half.hi == KEY_MAX && forall e | e in half.entries :: e.key < x
    ensures Grown(w3, p, x)
  {
  }

  lemma GrownDivide(w: World, f: FrameId, x: nat) returns (w3: World)
    requires Grown(w, f, x) && PageOf(w, f).node.Full() && |Top(w).node.keys| < INNER_CAPACITY
    ensures Grown(w3, w.s.head, x) && |Top(w3).node.keys| == |Top(w).node.keys| + 1
    ensures !PageOf(w3, w.s.head).node.Full()
    ensures forall w' | x <= KEY_MAX && Completes(w3, x, w') :: Inserts(w, x, w')
  {
    hide Completes;
    hide Inserts;
    hide Sane;
    w3 := DivideAndBring(w, f, x);
    RightHalf(PageOf(w, f).node, x);
    MoreIsGrown(Top(w).node, w3, w.s.head, Split(PageOf(w, f).node).right, x);
  }

  // --- The root leaf is divided ---

  /** The pool after a root leaf was split. */
  lemma RaisedShape(w: World)
    requires FullRootLeaf(w) && Fresh(w) && w.slot.frame != w.s.head && w.height == 1 && !w.s.dynamic
    ensures var w2, f, p := Raised(w), w.slot.frame, w.s.head;
            && Sane(w2) && Fresh(w2) && |w2.s.frames| == |w.s.frames| && w2.s.head == p + 1 && w2.s.free == w.s.free
            && w2.s.cool == w.s.cool && w2.slot == Tagged(p) && InTree(w2.s, p)
            && Top(w2).node == Inner(1, 0, KEY_MAX, [Split(w.s.frames[f].node).sep], [Tagged(f), Untagged(Next(w))])
            && Next(w) in w2.s.disk && w2.s.disk[Next(w)].node == Split(w.s.frames[f].node).right
  {
    hide TreeInv;
    RaisedKeeps(w);
    RootSplitFacts(w.s, w.st, w.slot, w.root, w.height, w.m);
    assert w.st[w.root].Level() == 0;
  }

  lemma SeedlingReady(w: World, x: nat)
    requires Seedling(w, x) && Top(w).node.Full()
    ensures FullRootLeaf(w) && NodeOk(Top(w).node) && w.slot == Tagged(0) && !w.s.dynamic && x <= KEY_MAX
  {
    assert FrameSound(w.s, w.slot.frame) && Mirrors(w.s, w.st, w.slot.frame);
    assert Placed(w.s, {}, w.slot.frame);
    SplitSays(w.s, Top(w).node, w.st[w.root]);
  }

  /** SplitRoot on the leaf, then load_child on its sibling. */
  lemma RaiseAndBring(w: World, x: nat) returns (w3: World)
    requires Seedling(w, x) && Top(w).node.Full()
    ensures NodeOk(Top(w).node) && x <= KEY_MAX && Top(w3).node.Inner? && |Top(w3).node.keys| == 1
    ensures var h := Split(Top(w).node);
            OneMoreLeaf(Inner(1, 0, KEY_MAX, [], [Tagged(0)]), w3, 2, h.right)
    ensures forall w' | Completes(w3, x, w') :: Inserts(w, x, w')
  {
    hide Completes;
    hide Sane;
    hide NodeOk;
    hide Brought;
    SeedlingReady(w, x);
    RightHalf(Top(w).node, x);
    RaisedShape(w);
    var w2 := Raised(w);
    SiblingBrought(w2, 1, 1);
    w3 := Brought(w2, 1, 1);
    forall w' | Completes(w3, x, w') ensures Inserts(w, x, w') {
      assert InsertsRaising(w, x, w');
    }
  }

  lemma SeedlingRaise(w: World, x: nat) returns (w3: World)
    requires Seedling(w, x) && Top(w).node.Full()
    ensures Grown(w3, 2, x) && |Top(w3).node.keys| == 1 && x <= KEY_MAX && !PageOf(w3, 2).node.Full()
    ensures forall w' | Completes(w3, x, w') :: Inserts(w, x, w')
  {
    hide Completes;
    hide Inserts;
    hide Sane;
    w3 := RaiseAndBring(w, x);
    RightHalf(Top(w).node, x);
    MoreIsGrown(Inner(1, 0, KEY_MAX, [], [Tagged(0)]), w3, 2, Split(Top(w).node).right, x);
  }

  // --- The run ---

  lemma FoundedIsSeedling(s: State)
    requires Unused(s) && |s.frames| == POOL && s.disk == map[] && s.cool != []
    ensures Seedling(Founded(s), 1) && Reached(Founded(s))
  {
    var a := GlobalAddress(0, PAGE_SIZE);
    var s0 := s.(disk := map[a := EmptyLeaf(a)]);
    UnusedOk(s);
    FirstPage(s, s0, a);
    TakeFreshKeeps(s0, FirstStore(a));
    QuietCalms(s0, TakeFresh(s0));
    FirstRoot(s0, TakeFresh(s0), a, 0, EmptyLeaf(a));
    assert RunTo([Founded(s)], Founded(s));
  }

  lemma {:induction false} FillRootLeaf(w: World, x: nat) returns (w': World, x': nat)
    requires Reached(w) && Seedling(w, x)
    ensures Reached(w') && Seedling(w', x') && Top(w').node.Full()
    decreases LEAF_CAPACITY - |Top(w).node.entries|
  {
    if Top(w).node.Full() {
      return w, x;
    }
    assert FrameSound(w.s, w.slot.frame);
    w' := SeedlingPut(w, x);
    ReachNext(w, x, w');
    w', x' := FillRootLeaf(w', x + 1);
  }

  /** One insert more under a root with room. */
  lemma GrowByOne(w: World, f: FrameId, x: nat) returns (w': World, f': FrameId)
    requires Reached(w) && Grown(w, f, x) && !Top(w).node.Full()
    ensures Reached(w') && Grown(w', f', x + 1)
    ensures if PageOf(w, f).node.Full() then |Top(w').node.keys| == |Top(w).node.keys| + 1
            else |Top(w').node.keys| == |Top(w).node.keys|
                 && |PageOf(w', f').node.entries| == |PageOf(w, f).node.entries| + 1
  {
    LastLeafResident(w, f, x);
    if PageOf(w, f).node.Full() {
      var w3 := GrownDivide(w, f, x);
      f' := w.s.head;
      w' := GrownPut(w3, f', x);
    } else {
      f' := f;
      w' := GrownPut(w, f, x);
      assert InsertsAtOnce(w, x, w');
    }
    ReachNext(w, x, w');
  }

  lemma {:induction false} GrowFull(w: World, f: FrameId, x: nat) returns (w': World, f': FrameId, x': nat)
    requires Reached(w) && Grown(w, f, x)
    ensures Reached(w') && Grown(w', f', x') && Top(w').node.Full()
    decreases INNER_CAPACITY - |Top(w).node.keys|, LEAF_CAPACITY - |PageOf(w, f).node.entries|
  {
    if Top(w).node.Full() {
      return w, f, x;
    }
    LastLeafResident(w, f, x);
    w', f' := GrowByOne(w, f, x);
    LastLeafResident(w', f', x + 1);
    w', f', x' := GrowFull(w', f', x + 1);
  }

  /** Some run of inserts fills the root while every frame of the pool is resident. */
  lemma FullRootIsReached() returns (w: World, f: FrameId, x: nat)
    ensures Reached(w) && Grown(w, f, x) && Top(w).node.Full()
  {
    var s := State(seq(POOL, _ => BLANK), map[], [[]], map[], [], 0, false);
    FoundedIsSeedling(s);
    w, x := FillRootLeaf(Founded(s), 1);
    var w3 := SeedlingRaise(w, x);
    var w4 := GrownPut(w3, 2, x);
    ReachNext(w, x, w4);
    w, f, x := GrowFull(w4, 2, x + 1);
  }

  /** Where the next insert stands once it has reserved a page and cut the root: no frame is at hand,
      so it samples, and two picks of a leaf that has moved leave a COOL frame behind a swizzled pointer. */
  lemma HazardIsReached()
    ensures exists w, c: FrameId ::
              && Reached(w) && RootIs(w.s, w.slot, w.root) && Top(w).node.Full() && w.height == 2
              && var g, s := w.slot.frame, Allocated(w).s;
              && AtWindow(s, w.st, g) && NothingAtHand(Window(s, g)) && Hazard(s, g) && Tagged(c) in Moved(s, g)
              && forall bucket: GlobalAddress -> nat | Hashes(s, bucket) ::
                   Call(Window(s, g), Moved(s, g), [Pick([c], -1), Pick([c], -1)], bucket).Wrong?
  {
    hide Reached;
    hide Call;
    var w, f, x := FullRootIsReached();
    var g, s, n := w.slot.frame, Allocated(w).s, Top(w).node;
    AllocatedKeeps(w);
    RootAtWindow(s, w.st, w.slot, w.root, w.height, w.m);
    var j := |Split(n).left.children|;
    var c := n.children[j].frame;
    assert FrameSound(s, g) && SlotSound(s, g, j);
    assert FrameSound(s, c);
    assert Moved(s, g)[0] == Tagged(c);
    forall bucket: GlobalAddress -> nat | Hashes(s, bucket)
      ensures Call(Window(s, g), Moved(s, g), [Pick([c], -1), Pick([c], -1)], bucket).Wrong?
    {
      MovedChildIsCooled(s, w.st, g, bucket, c);
    }
    assert ProbedEmpty(s.cool, 0, PROBING_LENGTH);
  }
}
