/** How many pages an insert adds (include/tree/LeanStoreTree.h, insert): one for every full page on the
    way to its key, and a new root if the root was one of them. */
module SplitCount {
  import opened Types
  import opened Node
  import opened BPlusTree
  import opened SplitSteps
  import opened TreeFacts

  /** The full pages on the way to k below level n. */
  ghost function FullLeaves(st: Store, k: Key, n: nat): set<GlobalAddress> {
    set a | a in st && FullAt(st, k, a) && st[a].Leaf? && st[a].Level() < n
  }

  ghost function FullInners(st: Store, k: Key, n: nat): set<GlobalAddress> {
    set a | a in st && FullAt(st, k, a) && st[a].Inner? && st[a].Level() < n
  }

  /** The leaves and inner pages there will be once every full page on the way below level n is split. */
  ghost function LeavesDue(st: Store, k: Key, n: nat): nat {
    |Leaves(st)| + |FullLeaves(st, k, n)|
  }

  ghost function InnersDue(st: Store, k: Key, n: nat): nat {
    |Inners(st)| + |FullInners(st, k, n)|
  }

  ghost function PagesDue(st: Store, k: Key, n: nat): nat {
    |FullLeaves(st, k, n)| + |FullInners(st, k, n)|
  }

  /** The pages an insert of k adds: one for every full page on the way, and a root if the root is one. */
  ghost function AllDue(st: Store, root: GlobalAddress, height: nat, k: Key): nat {
    PagesDue(st, k, height) + (if FullAt(st, k, root) then 1 else 0)
  }

  lemma SomethingDue(st: Store, k: Key, a: GlobalAddress, n: nat)
    requires FullAt(st, k, a) && st[a].Level() < n
    ensures Crowded(st, k) && PagesDue(st, k, n) > 0
    ensures st[a].Inner? ==> FullInners(st, k, n) != {}
  {
    assert st[a].Inner? ==> a in FullInners(st, k, n);
    assert a in FullLeaves(st, k, n) + FullInners(st, k, n);
  }

  lemma RootDue(st: Store, root: GlobalAddress, height: nat, k: Key)
    requires FullAt(st, k, root) && st[root].Level() < height
    ensures AllDue(st, root, height, k) >= 2 && (st[root].Inner? ==> FullInners(st, k, height) != {})
  {
    SomethingDue(st, k, root, height);
  }

  /** While a page on the way is still due, not all pages an insert adds have been added. */
  lemma NotAllPaid(st: Store, st': Store, root: GlobalAddress, height: nat, k: Key, n: nat, roots: nat)
    requires Paid(st, st', k, height, n, roots) && roots == if FullAt(st, k, root) then 1 else 0
    ensures |Leaves(st')| + |Inners(st')| + PagesDue(st', k, n) ==
            |Leaves(st)| + |Inners(st)| + AllDue(st, root, height, k)
    ensures FullInners(st', k, n) != {} && |Inners(st')| >= |Inners(st)| + roots ==> FullInners(st, k, height) != {}
  {
  }

  /** On the way from level n down to level n' every full page has been split, no other has, and so many
      roots were added. */
  ghost predicate Paid(st: Store, st': Store, k: Key, n: nat, n': nat, roots: nat) {
    LeavesDue(st', k, n') == LeavesDue(st, k, n) && InnersDue(st', k, n') == InnersDue(st, k, n) + roots
  }

  /** One level down. */
  ghost predicate PaidDown(st: Store, st': Store, k: Key, n: nat) {
    n > 0 && Paid(st, st', k, n, n - 1, 0)
  }

  lemma PaidThen(st: Store, st': Store, st'': Store, k: Key, n: nat, n': nat, roots: nat)
    requires Paid(st, st', k, n, n', roots) && PaidDown(st', st'', k, n')
    ensures Paid(st, st'', k, n, n' - 1, roots)
  {
  }

  /** On one level only one page is on the way. */
  lemma LevelOnWay(st: Store, root: GlobalAddress, height: nat, a: GlobalAddress, k: Key)
    requires TreeOk(st, root, height) && a in st && st[a].Covers(k)
    ensures var n := st[a].Level();
            && FullLeaves(st, k, n + 1) == FullLeaves(st, k, n) + (if FullAt(st, k, a) && st[a].Leaf? then {a} else {})
            && FullInners(st, k, n + 1) == FullInners(st, k, n) + (if FullAt(st, k, a) && st[a].Inner? then {a} else {})
  {
    hide TreeOk;
    forall x | x in st && st[x].Level() == st[a].Level() && st[x].Covers(k) ensures x == a {
      OnlyCover(st, root, height, x, a, k);
    }
  }

  /** A page with room is left as it is. */
  lemma PaidNothing(st: Store, root: GlobalAddress, height: nat, a: GlobalAddress, k: Key)
    requires TreeOk(st, root, height) && a in st && st[a].Covers(k) && !FullAt(st, k, a)
    ensures PaidDown(st, st, k, st[a].Level() + 1)
  {
    LevelOnWay(st, root, height, a, k);
  }

  /** A full child is split. */
  lemma PaidSplit(st: Store, root: GlobalAddress, height: nat, p: GlobalAddress, i: nat, b: GlobalAddress, k: Key)
    requires CanSplit(st, root, height, p, i, b) && st[p].children[i] in st && st[st[p].children[i]].Covers(k)
    ensures PaidDown(st, SplitUnder(st, p, i, b), k, st[st[p].children[i]].Level() + 1)
  {
    hide SplitUnder, TreeOk, Leaves, Inners;
    var a, st' := st[p].children[i], SplitUnder(st, p, i, b);
    var n := st[a].Level();
    LevelOnWay(st, root, height, a, k);
    CountSplitUnder(st, root, height, p, i, b);
    SplitLevels(st, root, height, p, i, b);
    SameBelow(st, st', k, n);
  }

  lemma SplitLevels(st: Store, root: GlobalAddress, height: nat, p: GlobalAddress, i: nat, b: GlobalAddress)
    requires CanSplit(st, root, height, p, i, b)
    ensures var a, st' := st[p].children[i], SplitUnder(st, p, i, b);
            && (forall x :: x in st' && st'[x].Level() < st[a].Level() <==> x in st && st[x].Level() < st[a].Level())
            && forall x | x in st && st[x].Level() < st[a].Level() :: st'[x] == st[x]
  {
    SplitUnderPages(st, root, height, p, i, b);
    SplitOk(st[st[p].children[i]]);
    assert SlotOk(st, st[p], i);
  }

  /** Below level n nothing has changed. */
  lemma SameBelow(st: Store, st': Store, k: Key, n: nat)
    requires forall x :: x in st' && st'[x].Level() < n <==> x in st && st[x].Level() < n
    requires forall x | x in st && st[x].Level() < n :: st'[x] == st[x]
    ensures FullLeaves(st', k, n) == FullLeaves(st, k, n) && FullInners(st', k, n) == FullInners(st, k, n)
  {
  }

  /** A full root is split under a new one. */
  lemma PaidRoot(st: Store, root: GlobalAddress, height: nat, b: GlobalAddress, r: GlobalAddress, k: Key)
    requires TreeOk(st, root, height) && NodeOk(st[root]) && st[root].Full() && b !in st && r !in HalvedAt(st, root, b)
    ensures Paid(st, GrowRoot(st, root, b, r), k, height, height, 1) && st[root].Level() + 1 == height
  {
    var st', n := GrowRoot(st, root, b, r), st[root].Level();
    SplitOk(st[root]);
    CountGrowRoot(st, root, height, b, r);
    assert st[root].Covers(k);
    LevelOnWay(st, root, height, root, k);
    SameBelow(st, st', k, n);
    HalvesHaveRoom(st, root, height, b, r, k);
  }

  lemma HalvesHaveRoom(st: Store, root: GlobalAddress, height: nat, b: GlobalAddress, r: GlobalAddress, k: Key)
    requires TreeOk(st, root, height) && NodeOk(st[root]) && st[root].Full() && b !in st && r !in HalvedAt(st, root, b)
    ensures var st', n := GrowRoot(st, root, b, r), st[root].Level();
            FullLeaves(st', k, n + 1) == FullLeaves(st', k, n) && FullInners(st', k, n + 1) == FullInners(st', k, n)
  {
    var st', n := GrowRoot(st, root, b, r), st[root].Level();
    SplitOk(st[root]);
    forall x | FullAt(st', k, x) ensures st'[x].Level() != n {
      if x in st && x != root && st[x].Level() == n {
        OnlyCover(st, root, height, x, root, k);
      }
    }
  }

  /** Once the leaf is reached nothing is due any more. */
  lemma AllPaid(st: Store, st': Store, k: Key, n: nat, roots: nat)
    requires Paid(st, st', k, n, 0, roots)
    ensures |Leaves(st')| == LeavesDue(st, k, n) && |Inners(st')| == InnersDue(st, k, n) + roots
  {
    assert FullLeaves(st', k, 0) == {} && FullInners(st', k, 0) == {};
  }
}
