/** The tree as a whole: its leaves from left to right, the entries they list, and how high it
    can grow. BPlusTree states the shape page by page; this is what that adds up to. */
module TreeShape {
  import opened Types
  import opened Node
  import opened BPlusTree
  import opened TreeFacts
  import opened TreeDescent

  /** Every page is sound and so is every slot. */
  ghost predicate Linked(st: Store) {
    NodesOk(st) && forall a {:trigger LinkOk(st, st[a])} | a in st :: LinkOk(st, st[a])
  }

  ghost function Width(n: Node<GlobalAddress>): nat {
    if n.Leaf? then 0 else |n.children| + 1
  }

  lemma ChildBelow(st: Store, a: GlobalAddress, i: nat)
    requires Linked(st) && a in st && st[a].Inner? && i < |st[a].children|
    ensures st[a].children[i] in st && i <= |st[a].keys| && Fits(st[st[a].children[i]], st[a], i)
    ensures st[st[a].children[i]].Level() < st[a].Level()
  {
    assert LinkOk(st, st[a]);
    assert SlotOk(st, st[a], i);
  }

  /** The leaves under page a, left to right. */
  ghost function LeafRun(st: Store, a: GlobalAddress): (run: seq<GlobalAddress>)
    requires Linked(st) && a in st
    decreases st[a].Level(), Width(st[a])
  {
    if st[a].Leaf? then [a] else SlotsRun(st, a, |st[a].children|)
  }

  /** The leaves under the first n children of page a. */
  ghost function SlotsRun(st: Store, a: GlobalAddress, n: nat): (run: seq<GlobalAddress>)
    requires Linked(st) && a in st && st[a].Inner? && n <= |st[a].children|
    decreases st[a].Level(), n
  {
    if n == 0 then []
    else
      ChildBelow(st, a, n - 1);
      SlotsRun(st, a, n - 1) + LeafRun(st, st[a].children[n - 1])
  }

  // --- The leaves cover the keys without gap or overlap ---

  /** Leaf i of the run starts where the one before it stops, the first one at lo. */
  ghost predicate StartsRight(st: Store, run: seq<GlobalAddress>, lo: Key, i: nat) {
    && i < |run| && run[i] in st
    && if i == 0 then st[run[i]].lo == lo else run[i - 1] in st && st[run[i]].lo == st[run[i - 1]].hi
  }

  ghost predicate AreLeaves(st: Store, run: seq<GlobalAddress>) {
    forall i | 0 <= i < |run| :: run[i] in st && st[run[i]].Leaf? && NodeOk(st[run[i]])
  }

  /** Leaf after leaf, from lo to hi. */
  ghost predicate Chained(st: Store, run: seq<GlobalAddress>, lo: Key, hi: Key) {
    && AreLeaves(st, run)
    && (forall i {:trigger StartsRight(st, run, lo, i)} | 0 <= i < |run| :: StartsRight(st, run, lo, i))
    && (if run == [] then lo == hi else st[run[|run| - 1]].hi == hi)
  }

  lemma ChainedConcat(st: Store, xs: seq<GlobalAddress>, ys: seq<GlobalAddress>, lo: Key, mid: Key, hi: Key)
    requires Chained(st, xs, lo, mid) && Chained(st, ys, mid, hi)
    ensures Chained(st, xs + ys, lo, hi)
  {
    var zs := xs + ys;
    forall i | 0 <= i < |zs| ensures StartsRight(st, zs, lo, i) {
      if i < |xs| {
        assert StartsRight(st, xs, lo, i);
      } else {
        assert StartsRight(st, ys, mid, i - |xs|);
      }
    }
  }

  /** The leaves under a page divide its interval. */
  lemma {:induction false} LeavesDivide(st: Store, a: GlobalAddress)
    requires Linked(st) && a in st
    ensures Chained(st, LeafRun(st, a), st[a].lo, st[a].hi)
    decreases st[a].Level(), Width(st[a])
  {
    assert NodeOk(st[a]);
    if st[a].Inner? {
      SlotsDivide(st, a, |st[a].children|);
    }
  }

  lemma {:induction false} SlotsDivide(st: Store, a: GlobalAddress, n: nat)
    requires Linked(st) && a in st && st[a].Inner? && n <= |st[a].children| && NodeOk(st[a])
    ensures Chained(st, SlotsRun(st, a, n), st[a].lo, if n == 0 then st[a].lo else st[a].ChildHi(n - 1))
    decreases st[a].Level(), n
  {
    if n > 0 {
      ChildBelow(st, a, n - 1);
      SlotsDivide(st, a, n - 1);
      LeavesDivide(st, st[a].children[n - 1]);
      ChainedConcat(st, SlotsRun(st, a, n - 1), LeafRun(st, st[a].children[n - 1]),
                    st[a].lo, st[a].ChildLo(n - 1), st[a].ChildHi(n - 1));
    }
  }

  /** Upper limits strictly increase along a chain, so no leaf occurs twice. */
  lemma {:induction false} ChainedRises(st: Store, run: seq<GlobalAddress>, lo: Key, hi: Key, i: nat, j: nat)
    requires Chained(st, run, lo, hi) && i < j < |run|
    ensures st[run[i]].hi <= st[run[j]].lo && st[run[i]].hi < st[run[j]].hi
    decreases j
  {
    assert StartsRight(st, run, lo, j);
    if i < j - 1 {
      ChainedRises(st, run, lo, hi, i, j - 1);
    }
  }

  // --- No page is out of reach ---

  /** A leaf whose interval lies in that of page a is found under a. */
  lemma {:induction false} LeafIsUnder(st: Store, root: GlobalAddress, height: nat, a: GlobalAddress, b: GlobalAddress,
                                       k: Key)
    requires TreeOk(st, root, height) && a in st && b in st && st[b].Leaf?
    requires st[a].Covers(k) && st[b].Covers(k)
    ensures b in LeafRun(st, a)
    decreases st[a].Level()
  {
    if st[a].Leaf? {
      OnlyCover(st, root, height, a, b, k);
    } else {
      DescendStep(st, root, height, a, k);
      var i := LowerBound(st[a].keys, k);
      LeafIsUnder(st, root, height, st[a].children[i], b, k);
      SlotIsUnder(st, a, i, |st[a].children|, b);
    }
  }

  lemma {:induction false} SlotIsUnder(st: Store, a: GlobalAddress, i: nat, n: nat, b: GlobalAddress)
    requires Linked(st) && a in st && st[a].Inner? && i < n <= |st[a].children|
    requires st[a].children[i] in st && b in LeafRun(st, st[a].children[i])
    ensures b in SlotsRun(st, a, n)
    decreases n
  {
    ChildBelow(st, a, n - 1);
    if i < n - 1 {
      SlotIsUnder(st, a, i, n - 1, b);
    }
  }

  /** From a page above down to the level just over b: the slot that leads to b. */
  lemma {:induction false} HangsUnder(st: Store, root: GlobalAddress, height: nat, a: GlobalAddress, b: GlobalAddress)
    returns (p: GlobalAddress, i: nat)
    requires TreeOk(st, root, height) && a in st && b in st && st[b].Level() < st[a].Level() && st[a].Covers(st[b].hi)
    ensures p in st && SlotOk(st, st[p], i) && st[p].children[i] == b
    decreases st[a].Level()
  {
    var k := st[b].hi;
    assert NodeOk(st[b]);
    DescendStep(st, root, height, a, k);
    i := LowerBound(st[a].keys, k);
    ChildBelow(st, a, i);
    assert LinkOk(st, st[a]);
    assert SlotOk(st, st[a], i);
    var c := st[a].children[i];
    if st[c].Level() == st[b].Level() {
      OnlyCover(st, root, height, b, c, k);
      p := a;
    } else {
      p, i := HangsUnder(st, root, height, c, b);
    }
  }

  /** Every page but the root hangs from exactly one slot. */
  lemma EveryPageHangs(st: Store, root: GlobalAddress, height: nat, b: GlobalAddress) returns (p: GlobalAddress, i: nat)
    requires TreeOk(st, root, height) && b in st && b != root
    ensures p in st && SlotOk(st, st[p], i) && st[p].children[i] == b
    ensures forall q, j: nat | q in st && st[q].Inner? && j < |st[q].children| && st[q].children[j] == b ::
            q == p && j == i
  {
    assert NodeOk(st[b]) && Below(st[b], height);
    p, i := HangsUnder(st, root, height, root, b);
    forall q, j: nat | q in st && st[q].Inner? && j < |st[q].children| && st[q].children[j] == b
      ensures q == p && j == i
    {
      OnlyParent(st, root, height, p, i, q, j);
    }
  }

  /** The leaves under the root are all leaves there are, each once. */
  lemma RunHasAllLeaves(st: Store, root: GlobalAddress, height: nat)
    requires TreeOk(st, root, height)
    ensures forall b :: b in LeafRun(st, root) <==> b in Leaves(st)
    ensures |LeafRun(st, root)| == |Leaves(st)|
  {
    var run := LeafRun(st, root);
    LeavesDivide(st, root);
    forall b | b in st && st[b].Leaf? ensures b in run {
      assert NodeOk(st[b]);
      LeafIsUnder(st, root, height, root, b, st[b].hi);
    }
    forall i, j | 0 <= i < j < |run| ensures run[i] != run[j] {
      ChainedRises(st, run, 0, KEY_MAX, i, j);
    }
    RunCount(run, Leaves(st));
  }

  lemma {:induction false} RunCount(run: seq<GlobalAddress>, all: set<GlobalAddress>)
    requires forall b :: b in run <==> b in all
    requires forall i, j | 0 <= i < j < |run| :: run[i] != run[j]
    ensures |run| == |all|
  {
    if run == [] {
      assert all == {};
    } else {
      forall b ensures b in run[1..] <==> b in all - {run[0]} {
        assert b in run <==> b == run[0] || b in run[1..];
      }
      RunCount(run[1..], all - {run[0]});
    }
  }

  // --- How high the tree can be ---

  function Power(base: nat, e: nat): (p: nat)
    ensures base > 0 ==> p > 0
  {
    if e == 0 then 1 else base * Power(base, e - 1)
  }

  lemma {:induction false} PowerRises(base: nat, e: nat, f: nat)
    requires base > 0 && e <= f
    ensures Power(base, e) <= Power(base, f)
    decreases f
  {
    if e < f {
      PowerRises(base, e, f - 1);
    }
  }

  lemma PowerOfEight()
    ensures Power(29, 8) == 500246412961
  {
    assert Power(29, 4) == 707281;
    assert Power(29, 8) == 29 * (29 * (29 * (29 * Power(29, 4))));
  }

  /** A page that came out of a split has at least (INNER_MIN + 1)^level leaves under it. */
  lemma {:induction false} FilledIsLarge(st: Store, root: GlobalAddress, height: nat, a: GlobalAddress)
    requires TreeOk(st, root, height) && a in st && a != root
    ensures |LeafRun(st, a)| >= Power(INNER_MIN + 1, st[a].Level())
    decreases st[a].Level(), Width(st[a])
  {
    if st[a].Inner? {
      assert NodeOk(st[a]) && Filled(st[a]);
      var n, p := |st[a].children|, Power(INNER_MIN + 1, st[a].Level() - 1);
      SlotsAreLarge(st, root, height, a, n);
      MoreTimes(INNER_MIN + 1, n, p);
    }
  }

  lemma {:induction false} SlotsAreLarge(st: Store, root: GlobalAddress, height: nat, a: GlobalAddress, n: nat)
    requires TreeOk(st, root, height) && a in st && st[a].Inner? && n <= |st[a].children| && NodeOk(st[a])
    ensures |SlotsRun(st, a, n)| >= n * Power(INNER_MIN + 1, st[a].Level() - 1)
    decreases st[a].Level(), n
  {
    if n > 0 {
      ChildBelow(st, a, n - 1);
      SlotsAreLarge(st, root, height, a, n - 1);
      assert SlotOk(st, st[a], n - 1);
      RootIsNoChild(st, root, height, a, n - 1);
      FilledIsLarge(st, root, height, st[a].children[n - 1]);
      OneMoreTime(n, Power(INNER_MIN + 1, st[a].Level() - 1));
    }
  }

  lemma MoreTimes(m: nat, n: nat, p: nat)
    requires m <= n
    ensures m * p <= n * p
  {
  }

  lemma OneMoreTime(n: nat, p: nat)
    requires n > 0
    ensures n * p == (n - 1) * p + p
  {
  }

  /** A tree of height h >= 2 has at least 2 * 29^(h - 2) leaves. */
  lemma HeightBound(st: Store, root: GlobalAddress, height: nat)
    requires TreeOk(st, root, height) && height >= 2
    ensures |Leaves(st)| >= 2 * Power(29, height - 2)
  {
    Capacities();
    assert NodeOk(st[root]);
    var n, p := |st[root].children|, Power(INNER_MIN + 1, height - 2);
    SlotsAreLarge(st, root, height, root, n);
    RunHasAllLeaves(st, root, height);
    MoreTimes(2, n, p);
  }

  /** With pages at distinct page-aligned offsets below 2^47 no page reaches level 9, so one byte
      holds every level and super_root_'s 255 is taken by none. */
  lemma LevelsFitInAByte(st: Store, root: GlobalAddress, height: nat)
    requires TreeOk(st, root, height)
    requires forall a | a in st :: a.nodeID == 0 && a.offset % PAGE_SIZE == 0 && a.offset < TWO_47
    ensures height <= 9 && forall a | a in st :: st[a].Level() < 9 < 255
  {
    FewAddresses(Leaves(st), TWO_47 / PAGE_SIZE);
    PowerOfEight();
    if height > 9 {
      HeightBound(st, root, height);
      PowerRises(29, 8, height - 2);
      assert false;
    }
    forall a | a in st ensures st[a].Level() < 9 {
      assert a != root ==> Below(st[a], height);
    }
  }

  lemma {:induction false} FewAddresses(all: set<GlobalAddress>, pages: nat)
    requires forall a | a in all :: a.nodeID == 0 && a.offset % PAGE_SIZE == 0 && a.offset < pages * PAGE_SIZE
    ensures |all| <= pages
    decreases pages
  {
    if pages == 0 {
      assert all == {};
    } else {
      var last := GlobalAddress(0, (pages - 1) * PAGE_SIZE);
      forall a | a in all - {last} ensures a.offset < (pages - 1) * PAGE_SIZE {
        assert a.offset / PAGE_SIZE <= pages - 1;
      }
      FewAddresses(all - {last}, pages - 1);
      assert all <= (all - {last}) + {last};
    }
  }

  // --- The entries, in order ---

  /** The entries of a run of leaves, one leaf after the other. */
  ghost function Flat(st: Store, run: seq<GlobalAddress>): (es: seq<Entry>)
    requires AreLeaves(st, run)
  {
    if run == [] then [] else Flat(st, run[..|run| - 1]) + st[run[|run| - 1]].entries
  }

  /** All entries of the tree, left to right. */
  ghost function InOrder(st: Store, root: GlobalAddress): (es: seq<Entry>)
    requires Linked(st) && root in st
  {
    LeavesDivide(st, root);
    Flat(st, LeafRun(st, root))
  }

  lemma ChainInit(st: Store, run: seq<GlobalAddress>, lo: Key, hi: Key)
    requires Chained(st, run, lo, hi) && run != []
    ensures Chained(st, run[..|run| - 1], lo, st[run[|run| - 1]].lo)
  {
    var xs := run[..|run| - 1];
    assert StartsRight(st, run, lo, |xs|);
    forall i | 0 <= i < |xs| ensures StartsRight(st, xs, lo, i) {
      assert StartsRight(st, run, lo, i);
    }
  }

  /** Along a chain the entries are sorted and lie within its limits. */
  lemma {:induction false} ChainSorted(st: Store, run: seq<GlobalAddress>, lo: Key, hi: Key)
    requires Chained(st, run, lo, hi)
    ensures Sorted(Keys(Flat(st, run)))
    ensures forall e | e in Flat(st, run) :: lo <= e.key <= hi
    decreases |run|
  {
    if run != [] {
      var n := |run| - 1;
      var xs, last := run[..n], st[run[n]];
      ChainInit(st, run, lo, hi);
      ChainSorted(st, xs, lo, last.lo);
      var es, fs := Flat(st, xs), last.entries;
      forall e: Entry | e in es + fs ensures lo <= e.key <= hi {
        if e in fs { assert exists i :: 0 <= i < |fs| && fs[i] == e; }
        ChainLow(st, run, lo, hi, n);
      }
      forall i, j | 0 <= i < j < |es + fs| ensures (es + fs)[i].key < (es + fs)[j].key {
        if j < |es| {
          assert Keys(es)[i] < Keys(es)[j];
        } else if i >= |es| {
          assert Keys(fs)[i - |es|] < Keys(fs)[j - |es|];
        } else {
          assert es[i] in es;
          assert last.Covers(fs[j - |es|].key);
          assert xs != [];
          ChainLow(st, run, lo, hi, n - 1);
          assert last.lo > 0;
        }
      }
    }
  }

  lemma {:induction false} ChainLow(st: Store, run: seq<GlobalAddress>, lo: Key, hi: Key, j: nat)
    requires Chained(st, run, lo, hi) && j < |run|
    ensures lo <= st[run[j]].lo < st[run[j]].hi <= hi
  {
    assert StartsRight(st, run, lo, 0);
    assert NodeOk(st[run[0]]);
    if j > 0 { ChainedRises(st, run, lo, hi, 0, j); }
    if j < |run| - 1 { ChainedRises(st, run, lo, hi, j, |run| - 1); }
  }

  lemma {:induction false} FlatMembers(st: Store, run: seq<GlobalAddress>, e: Entry)
    requires AreLeaves(st, run)
    ensures e in Flat(st, run) <==> exists i :: 0 <= i < |run| && e in st[run[i]].entries
    decreases |run|
  {
    if run != [] {
      var n := |run| - 1;
      FlatMembers(st, run[..n], e);
      if i :| 0 <= i < |run| && e in st[run[i]].entries {
        if i < n { assert e in st[run[..n][i]].entries; }
      }
      if e in Flat(st, run[..n]) {
        var i :| 0 <= i < n && e in st[run[..n][i]].entries;
        assert e in st[run[i]].entries;
      } else if e in st[run[n]].entries {
        assert e in Flat(st, run);
      }
    }
  }

  /** Read from left to right, the leaves list the map the tree stores, in key order. */
  lemma InOrderListsMap(st: Store, root: GlobalAddress, height: nat, m: map<Key, Value>)
    requires TreeOk(st, root, height) && Holds(st, m)
    ensures Stores(InOrder(st, root), m)
  {
    var run, es := LeafRun(st, root), InOrder(st, root);
    LeavesDivide(st, root);
    ChainSorted(st, run, 0, KEY_MAX);
    RunHasAllLeaves(st, root, height);
    forall e: Entry ensures e in es <==> HasEntry(st, e) {
      FlatMembers(st, run, e);
      if HasEntry(st, e) {
        var a :| a in st && st[a].Leaf? && e in st[a].entries;
        assert a in Leaves(st);
        var i :| 0 <= i < |run| && run[i] == a;
        assert e in st[run[i]].entries;
      }
    }
    forall i | 0 <= i < |es| ensures es[i].key in m && m[es[i].key] == es[i].value {
      assert es[i] in es;
      assert HasEntry(st, es[i]);
    }
    forall k | k in m ensures Listed(es, m, k) {
      assert HasEntry(st, Entry(k, m[k]));
    }
  }

  // --- range_scan ---

  ghost function Limits(st: Store, run: seq<GlobalAddress>): (ks: seq<Key>)
    requires AreLeaves(st, run)
    ensures |ks| == |run|
  {
    seq(|run|, i requires 0 <= i < |run| => st[run[i]].hi)
  }

  /** How many entries the tree has up to the end of the leaf responsible for k. */
  ghost function LeafEnd(st: Store, root: GlobalAddress, k: Key): nat
    requires Linked(st) && root in st
  {
    LeavesDivide(st, root);
    var run := LeafRun(st, root);
    var j := LowerBound(Limits(st, run), k);
    |Flat(st, if j < |run| then run[..j + 1] else run)|
  }

  /** out is the stretch of all from k on, num entries long or as many as there are before end;
      nothing when k is absent. */
  predicate IsScan(all: seq<Entry>, end: nat, k: Key, num: nat, out: seq<Entry>) {
    var p := LowerBound(Keys(all), k);
    if p < |all| && all[p].key == k
    then p < end <= |all| && out == all[p..p + Least(num, end - p)]
    else out == []
  }

  function Least(x: nat, y: nat): (least: nat)
    ensures least <= x && least <= y && (least == x || least == y)
  {
    if x <= y then x else y
  }

  /** A scan of the whole tree in key order that stops at the end of the leaf of k. */
  ghost predicate ScansInOrder(st: Store, root: GlobalAddress, k: Key, num: nat, out: seq<Entry>)
    requires Linked(st) && root in st
  {
    IsScan(InOrder(st, root), LeafEnd(st, root, k), k, num, out)
  }

  lemma {:induction false} FlatPrefix(st: Store, run: seq<GlobalAddress>, j: nat)
    requires AreLeaves(st, run) && j <= |run|
    ensures Flat(st, run[..j]) <= Flat(st, run)
    decreases |run|
  {
    if j < |run| {
      var xs := run[..|run| - 1];
      FlatPrefix(st, xs, j);
      assert xs[..j] == run[..j];
    } else {
      assert run[..j] == run;
    }
  }

  /** The leaf responsible for k is the one the upper limits point to. */
  lemma LeafPlace(st: Store, run: seq<GlobalAddress>, j: nat, k: Key)
    requires Chained(st, run, 0, KEY_MAX) && j < |run| && st[run[j]].Covers(k)
    ensures LowerBound(Limits(st, run), k) == j && (j == 0 || st[run[j]].lo < k)
  {
    forall i, i' | 0 <= i < i' < |run| ensures st[run[i]].hi < st[run[i']].hi && st[run[i]].hi <= st[run[i']].lo {
      ChainedRises(st, run, 0, KEY_MAX, i, i');
    }
    assert j > 0 ==> st[run[0]].hi <= st[run[j]].lo;
    assert StartsRight(st, run, 0, 0) && NodeOk(st[run[0]]);
    LowerBoundIs(Limits(st, run), k, j);
  }

  lemma {:induction false} ChainPrefix(st: Store, run: seq<GlobalAddress>, lo: Key, hi: Key, j: nat)
    requires Chained(st, run, lo, hi) && j < |run|
    ensures Chained(st, run[..j], lo, st[run[j]].lo)
    decreases |run|
  {
    ChainInit(st, run, lo, hi);
    if j < |run| - 1 {
      ChainPrefix(st, run[..|run| - 1], lo, st[run[|run| - 1]].lo, j);
      assert run[..|run| - 1][..j] == run[..j];
    }
  }

  /** What the leaf of k holds is one stretch of the listing, and k's place in it is k's place in the leaf. */
  lemma LeafInListing(st: Store, root: GlobalAddress, height: nat, a: GlobalAddress, k: Key) returns (start: nat)
    requires TreeOk(st, root, height) && a in st && st[a].Leaf? && st[a].Covers(k)
    ensures var all, es := InOrder(st, root), st[a].entries;
            && LeafEnd(st, root, k) == start + |es| <= |all| && all[start..start + |es|] == es
            && Sorted(Keys(all)) && forall i | 0 <= i < start :: all[i].key < k
  {
    hide LowerBound;
    var run := LeafRun(st, root);
    LeavesDivide(st, root);
    ChainSorted(st, run, 0, KEY_MAX);
    RunHasAllLeaves(st, root, height);
    assert a in Leaves(st);
    var j :| 0 <= j < |run| && run[j] == a;
    LeafPlace(st, run, j, k);
    start := LeafInFlat(st, run, j, k);
  }

  lemma LowKeysBefore(st: Store, run: seq<GlobalAddress>, j: nat, k: Key)
    requires Chained(st, run, 0, KEY_MAX) && j < |run| && (j == 0 || st[run[j]].lo < k)
    ensures forall e | e in Flat(st, run[..j]) :: e.key < k
  {
    ChainPrefix(st, run, 0, KEY_MAX, j);
    ChainSorted(st, run[..j], 0, st[run[j]].lo);
  }

  lemma FlatParts(st: Store, run: seq<GlobalAddress>, j: nat)
    requires AreLeaves(st, run) && j < |run|
    ensures Flat(st, run[..j + 1]) == Flat(st, run[..j]) + st[run[j]].entries
    ensures Flat(st, run[..j + 1]) <= Flat(st, run)
  {
    assert run[..j + 1][..j] == run[..j];
    FlatPrefix(st, run, j + 1);
  }

  lemma PartsOfWhole(all: seq<Entry>, before: seq<Entry>, es: seq<Entry>, k: Key)
    requires before + es <= all && forall e | e in before :: e.key < k
    ensures |before| + |es| <= |all| && all[|before|..|before| + |es|] == es
    ensures forall i | 0 <= i < |before| :: all[i].key < k
  {
    forall i | 0 <= i < |before| ensures all[i].key < k {
      assert all[i] == (before + es)[i] && before[i] in before;
    }
  }

  lemma LeafInFlat(st: Store, run: seq<GlobalAddress>, j: nat, k: Key) returns (start: nat)
    requires Chained(st, run, 0, KEY_MAX) && j < |run| && (j == 0 || st[run[j]].lo < k)
    ensures var all, es := Flat(st, run), st[run[j]].entries;
            && |Flat(st, run[..j + 1])| == start + |es| <= |all| && all[start..start + |es|] == es
            && forall i | 0 <= i < start :: all[i].key < k
  {
    LowKeysBefore(st, run, j, k);
    FlatParts(st, run, j);
    PartsOfWhole(Flat(st, run), Flat(st, run[..j]), st[run[j]].entries, k);
    start := |Flat(st, run[..j])|;
  }

  /** A key's place in a listing is its place in the stretch that holds it. */
  lemma PlaceInStretch(all: seq<Entry>, es: seq<Entry>, start: nat, k: Key)
    requires Sorted(Keys(all)) && start + |es| <= |all| && all[start..start + |es|] == es
    requires forall i | 0 <= i < start :: all[i].key < k
    ensures var q := LowerBound(Keys(es), k);
            (q < |es| ==> LowerBound(Keys(all), k) == start + q && all[start + q] == es[q])
  {
    var q := LowerBound(Keys(es), k);
    if q < |es| {
      assert all[start + q] == all[start..start + |es|][q];
      forall i | 0 <= i < start + q ensures Keys(all)[i] < k {
        if i >= start {
          assert all[i] == all[start..start + |es|][i - start] && Keys(es)[i - start] < k;
        }
      }
      LowerBoundIs(Keys(all), k, start + q);
    }
  }

  lemma KeyListed(all: seq<Entry>, m: map<Key, Value>, k: Key)
    requires Stores(all, m)
    ensures Sorted(Keys(all))
    ensures var p := LowerBound(Keys(all), k); (p < |all| && all[p].key == k) <==> k in m
  {
    FindReadsMap(all, m, k);
  }

  lemma SliceOfSlice(all: seq<Entry>, es: seq<Entry>, start: nat, q: nat, n: nat)
    requires start + |es| <= |all| && all[start..start + |es|] == es && q + n <= |es|
    ensures all[start + q..start + q + n] == es[q..q + n]
  {
    var xs, ys := all[start + q..start + q + n], es[q..q + n];
    forall i | 0 <= i < n ensures xs[i] == ys[i] {
      assert all[start + q + i] == all[start..start + |es|][q + i];
    }
  }

  /** Scanning a stretch that holds k if the whole does is scanning the whole up to its end. */
  lemma StretchScan(all: seq<Entry>, es: seq<Entry>, start: nat, k: Key, num: nat)
    requires Sorted(Keys(all)) && start + |es| <= |all| && all[start..start + |es|] == es
    requires forall i | 0 <= i < start :: all[i].key < k
    requires LeafFind(es, k).None? ==> var p := LowerBound(Keys(all), k); p < |all| ==> all[p].key != k
    ensures IsScan(all, start + |es|, k, num, LeafScan(es, k, num))
  {
    hide LowerBound;
    hide Keys;
    hide Sorted;
    PlaceInStretch(all, es, start, k);
    var q := LowerBound(Keys(es), k);
    if q < |es| && es[q].key == k {
      SliceOfSlice(all, es, start, q, Least(num, |es| - q));
    }
  }

  /** Scanning the leaf of k is scanning the whole tree, stopping where that leaf does. */
  lemma LeafScanIsTreeScan(st: Store, root: GlobalAddress, height: nat, m: map<Key, Value>, a: GlobalAddress, k: Key,
                           num: nat)
    requires TreeOk(st, root, height) && Holds(st, m) && a in st && st[a].Leaf? && st[a].Covers(k)
    ensures ScansInOrder(st, root, k, num, LeafScan(st[a].entries, k, num))
  {
    hide Stores;
    hide LowerBound;
    var start := LeafInListing(st, root, height, a, k);
    LeafAnswers(st, root, height, m, a, k);
    InOrderListsMap(st, root, height, m);
    KeyListed(InOrder(st, root), m, k);
    StretchScan(InOrder(st, root), st[a].entries, start, k, num);
  }

  /** What a scan means for the map: from k on, in order, and with no key left out. */
  ghost predicate ScanOf(m: map<Key, Value>, k: Key, num: nat, out: seq<Entry>) {
    && |out| <= num && Sorted(Keys(out))
    && (out != [] ==> k in m && out[0].key == k)
    && (k in m && num > 0 ==> out != [])
    && (forall e | e in out :: e.key in m && m[e.key] == e.value)
    && (forall x | x in m && out != [] && k <= x <= out[|out| - 1].key :: Entry(x, m[x]) in out)
  }

  lemma StretchSorted(all: seq<Entry>, p: nat, n: nat)
    requires Sorted(Keys(all)) && p + n <= |all|
    ensures Sorted(Keys(all[p..p + n]))
  {
    var out := all[p..p + n];
    forall i, j | 0 <= i < j < n ensures Keys(out)[i] < Keys(out)[j] {
      assert Keys(all)[p + i] < Keys(all)[p + j];
    }
  }

  /** An entry with a key between the ends of a stretch is in the stretch. */
  lemma StretchComplete(all: seq<Entry>, p: nat, n: nat, e: Entry)
    requires Sorted(Keys(all)) && 0 < n && p + n <= |all| && e in all
    requires all[p].key <= e.key <= all[p + n - 1].key
    ensures e in all[p..p + n]
  {
    var i :| 0 <= i < |all| && all[i] == e;
    assert Keys(all)[i] == e.key && Keys(all)[p] == all[p].key && Keys(all)[p + n - 1] == all[p + n - 1].key;
    assert all[p..p + n][i - p] == e;
  }

  lemma StretchFromMap(all: seq<Entry>, m: map<Key, Value>, p: nat, n: nat, e: Entry)
    requires Stores(all, m) && p + n <= |all| && e in all[p..p + n]
    ensures e.key in m && m[e.key] == e.value
  {
    assert e in all;
  }

  /** A stretch of the listing that starts at k, as the map sees it. */
  lemma StretchIsScan(all: seq<Entry>, m: map<Key, Value>, p: nat, n: nat, k: Key)
    requires Stores(all, m) && 0 < n && p + n <= |all| && all[p].key == k
    ensures ScanOf(m, k, n, all[p..p + n])
  {
    var out := all[p..p + n];
    StretchSorted(all, p, n);
    assert out[0] == all[p] && out[0] in out && out[n - 1] == all[p + n - 1];
    forall e | e in out ensures e.key in m && m[e.key] == e.value {
      StretchFromMap(all, m, p, n, e);
    }
    forall x | x in m && k <= x <= out[n - 1].key ensures Entry(x, m[x]) in out {
      assert Listed(all, m, x);
      StretchComplete(all, p, n, Entry(x, m[x]));
    }
  }

  lemma ScanOfListing(all: seq<Entry>, m: map<Key, Value>, end: nat, k: Key, num: nat, out: seq<Entry>)
    requires Stores(all, m) && IsScan(all, end, k, num, out)
    ensures ScanOf(m, k, num, out)
  {
    hide LowerBound;
    hide Keys;
    hide Stores;
    hide ScanOf;
    var p := LowerBound(Keys(all), k);
    KeyListed(all, m, k);
    if k in m && num > 0 {
      StretchIsScan(all, m, p, Least(num, end - p), k);
      ScanMore(m, k, Least(num, end - p), num, out);
    } else {
      assert out == [];
      ScanNothing(m, k, num);
    }
  }

  lemma ScanMore(m: map<Key, Value>, k: Key, n: nat, num: nat, out: seq<Entry>)
    requires ScanOf(m, k, n, out) && 0 < n <= num
    ensures ScanOf(m, k, num, out)
  {
  }

  lemma ScanNothing(m: map<Key, Value>, k: Key, num: nat)
    requires k !in m || num == 0
    ensures ScanOf(m, k, num, [])
  {
  }

  /** A scan of the tree leaves out no key of the map. */
  lemma ScanHasNoGap(st: Store, root: GlobalAddress, height: nat, m: map<Key, Value>, k: Key, num: nat, out: seq<Entry>)
    requires TreeOk(st, root, height) && Holds(st, m) && ScansInOrder(st, root, k, num, out)
    ensures ScanOf(m, k, num, out)
  {
    InOrderListsMap(st, root, height, m);
    ScanOfListing(InOrder(st, root), m, LeafEnd(st, root, k), k, num, out);
  }

  /** The same, and how far it goes: num entries, or all there are up to hi. */
  ghost predicate ScanUpTo(m: map<Key, Value>, k: Key, num: nat, hi: Key, out: seq<Entry>) {
    && ScanOf(m, k, num, out) && (forall e | e in out :: e.key <= hi)
    && (k in m && |out| != num ==> forall x | x in m && k <= x <= hi :: Entry(x, m[x]) in out)
  }

  /** ... for some leaf responsible for k, up to its upper limit. */
  ghost predicate ScansLeaf(st: Store, m: map<Key, Value>, k: Key, num: nat, out: seq<Entry>) {
    exists a :: ScansTo(st, m, k, num, out, a)
  }

  ghost predicate ScansTo(st: Store, m: map<Key, Value>, k: Key, num: nat, out: seq<Entry>, a: GlobalAddress) {
    a in st && st[a].Leaf? && st[a].Covers(k) && ScanUpTo(m, k, num, st[a].hi, out)
  }

  /** A scan ends early at the upper limit of the leaf of k only. */
  lemma ScanEndsWithLeaf(st: Store, root: GlobalAddress, height: nat, m: map<Key, Value>, a: GlobalAddress, k: Key,
                         num: nat)
    requires TreeOk(st, root, height) && Holds(st, m) && a in st && st[a].Leaf? && st[a].Covers(k)
    ensures ScanUpTo(m, k, num, st[a].hi, LeafScan(st[a].entries, k, num))
  {
    hide ScanOf, LeafScan, LeafFind, TreeOk, Holds;
    var es, out := st[a].entries, LeafScan(st[a].entries, k, num);
    LeafScanIsTreeScan(st, root, height, m, a, k, num);
    ScanHasNoGap(st, root, height, m, k, num, out);
    LeafSorted(st, root, height, a);
    LeafAnswers(st, root, height, m, a, k);
    ScanWithin(es, k, num);
    if k in m && |out| != num {
      forall x | x in m && k <= x <= st[a].hi ensures Entry(x, m[x]) in out {
        LeafAnswers(st, root, height, m, a, x);
        EntryFrom(es, k, num, x);
      }
    }
  }

  lemma LeafSorted(st: Store, root: GlobalAddress, height: nat, a: GlobalAddress)
    requires TreeOk(st, root, height) && a in st && st[a].Leaf?
    ensures Sorted(Keys(st[a].entries)) && forall e | e in st[a].entries :: e.key <= st[a].hi
  {
    assert NodeOk(st[a]);
  }

  lemma ScanWithin(es: seq<Entry>, k: Key, num: nat)
    ensures forall e | e in LeafScan(es, k, num) :: e in es
  {
  }

  /** A scan that stops short has every entry whose key is not below k. */
  lemma EntryFrom(es: seq<Entry>, k: Key, num: nat, x: Key)
    requires Sorted(Keys(es)) && k <= x && LeafFind(es, x).Some? && LeafFind(es, k).Some?
    requires |LeafScan(es, k, num)| != num
    ensures Entry(x, LeafFind(es, x).value) in LeafScan(es, k, num)
  {
    var p, q := LowerBound(Keys(es), k), LowerBound(Keys(es), x);
    assert Keys(es)[q] == x && p <= q;
    assert LeafScan(es, k, num)[q - p] == es[q];
  }
}
