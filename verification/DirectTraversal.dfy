/** Lookup, update, insert and remove over backend memory alone (include/cache/Btree.h), and
    their agreement with the cached tree once it has been flushed. */
module DirectTraversal {
  import opened Types
  import opened Node
  import opened BPlusTree
  import opened CacheState
  import opened TreeDescent
  import opened Backend
  import opened LeanStoreTree

  /** Where a page of this memory node sits in its store: dsm_base plus the offset, whatever the node's
      number is. */
  function Local(a: GlobalAddress): GlobalAddress {
    GlobalAddress(0, a.offset)
  }

  /** The pages of this memory node, number home, are on the backend, with plain children. */
  ghost predicate OnDisk(disk: map<GlobalAddress, Page>, st: Store, home: nat) {
    forall a {:trigger Written(disk, st, a)} | a in st && a.nodeID == home :: Written(disk, st, a)
  }

  ghost predicate Written(disk: map<GlobalAddress, Page>, st: Store, a: GlobalAddress) {
    Local(a) in disk && a in st && disk[Local(a)].remote == a && disk[Local(a)].node == Lift(st[a])
  }

  /** The backend holds memory node home's part of a tree that stores m. */
  ghost predicate TreeOnDisk(disk: map<GlobalAddress, Page>, st: Store, home: nat, top: GlobalAddress, height: nat,
                             m: map<Key, Value>) {
    TreeOk(st, top, height) && Holds(st, m) && OnDisk(disk, st, home)
  }

  /** Where a descent from page a ends: in a leaf, or at a child kept by another memory node. */
  datatype Landing = Here(leaf: GlobalAddress) | Elsewhere(child: GlobalAddress)

  ghost function Land(st: Store, top: GlobalAddress, height: nat, a: GlobalAddress, k: Key): (l: Landing)
    requires TreeOk(st, top, height) && a in st
    ensures l.Here? ==> l.leaf in st && st[l.leaf].Leaf? && l.leaf.nodeID == a.nodeID
    ensures l.Elsewhere? ==> l.child in st && l.child.nodeID != a.nodeID
    ensures l.Here? ==> (st[l.leaf].Covers(k) <==> st[a].Covers(k))
    decreases st[a].Level()
  {
    if st[a].Leaf? then Here(a)
    else
      StepKeepsCover(st, top, height, a, k);
      var c := st[a].children[LowerBound(st[a].keys, k)];
      if c.nodeID != a.nodeID then Elsewhere(c) else Land(st, top, height, c, k)
  }

  /** The chosen child covers k exactly when its parent does: a descent that starts in the wrong
      place ends in a leaf that does not cover k. */
  lemma StepKeepsCover(st: Store, top: GlobalAddress, height: nat, a: GlobalAddress, k: Key)
    requires TreeOk(st, top, height) && a in st && st[a].Inner?
    ensures var i := LowerBound(st[a].keys, k);
            && i < |st[a].children| && st[a].children[i] in st
            && st[st[a].children[i]].Level() < st[a].Level()
            && (st[st[a].children[i]].Covers(k) <==> st[a].Covers(k))
  {
    var i := LowerBound(st[a].keys, k);
    assert NodeOk(st[a]) && LinkOk(st, st[a]);
    assert SlotOk(st, st[a], i);
    ChildIntervalProper(st[a], i);
    if st[a].Covers(k) {
      SearchFindsSlot(st[a], k, i);
    }
  }

  lemma LiftedChild(n: Node<GlobalAddress>, i: nat)
    requires n.Inner? && i < |n.children|
    ensures Lift(n).Inner? && Lift(n).keys == n.keys && |Lift(n).children| == |n.children|
    ensures Lift(n).children[i] == Untagged(n.children[i])
  {
  }

  /** The descent common to the four operations. */
  method Descend(backend: InMemoryBackend, root: GlobalAddress, k: Key,
                 ghost st: Store, ghost top: GlobalAddress, ghost height: nat, ghost m: map<Key, Value>)
    returns (here: bool, node: GlobalAddress, page: Page)
    requires backend.Valid() && TreeOnDisk(backend.disk, st, root.nodeID, top, height, m) && root in st
    ensures Land(st, top, height, root, k) == if here then Here(node) else Elsewhere(node)
    ensures here ==> Local(node) in backend.disk && page == backend.disk[Local(node)] && page.remote == node
                     && page.node == Lift(st[node])
  {
    node := root;
    assert Written(backend.disk, st, node);
    var read := backend.Read(node);
    page := read.value;
    while page.node.Inner?
      invariant node in st && node.nodeID == root.nodeID && Written(backend.disk, st, node)
      invariant page == backend.disk[Local(node)]
      invariant Land(st, top, height, root, k) == Land(st, top, height, node, k)
      decreases st[node].Level()
    {
      StepKeepsCover(st, top, height, node, k);
      var i := LowerBound(page.node.keys, k);
      LiftedChild(st[node], i);
      node := page.node.children[i].addr;
      if node.nodeID != root.nodeID {
        return false, node, page;
      }
      assert Written(backend.disk, st, node);
      read := backend.Read(node);
      page := read.value;
    }
    return true, node, page;
  }

  /** 0: the path leaves this memory node; -1: the descent started in a page that does not cover k;
      1 with the value, or 2, as the map says. */
  method Lookup(backend: InMemoryBackend, root: GlobalAddress, k: Key,
                ghost st: Store, ghost top: GlobalAddress, ghost height: nat, ghost m: map<Key, Value>)
    returns (code: int, v: Value, g: GlobalAddress)
    requires backend.Valid() && TreeOnDisk(backend.disk, st, root.nodeID, top, height, m) && root in st
    ensures var l := Land(st, top, height, root, k);
            && code == (if l.Elsewhere? then 0 else if !st[root].Covers(k) then -1 else if k in m then 1 else 2)
            && (code == 0 ==> g == l.child) && (code == 1 ==> v == m[k])
  {
    v, g := 0, NULL;
    var here, node, page := Descend(backend, root, k, st, top, height, m);
    if !here {
      return 0, v, node;
    }
    if !page.node.Covers(k) {
      return -1, v, g;
    }
    LeafAnswers(st, top, height, m, node, k);
    var pos := LowerBound(Keys(page.node.entries), k);
    if pos < |page.node.entries| && page.node.entries[pos].key == k {
      return 1, page.node.entries[pos].value, g;
    }
    return 2, v, g;
  }

  /** A leaf rewritten in backend memory. */
  lemma LeafRewritten(disk: map<GlobalAddress, Page>, st: Store, top: GlobalAddress, height: nat, m: map<Key, Value>,
                    a: GlobalAddress, es: seq<Entry>, dirty: bool, m': map<Key, Value>)
    requires TreeOnDisk(disk, st, a.nodeID, top, height, m) && a in st && st[a].Leaf? && Written(disk, st, a)
    requires TreeOk(WithLeaf(st, a, es), top, height) && Holds(WithLeaf(st, a, es), m')
    ensures var page := disk[Local(a)].(node := disk[Local(a)].node.(entries := es), dirty := dirty);
            TreeOnDisk(disk[Local(a) := page], WithLeaf(st, a, es), a.nodeID, top, height, m')
  {
    var st' := WithLeaf(st, a, es);
    var disk' := disk[Local(a) := disk[Local(a)].(node := disk[Local(a)].node.(entries := es), dirty := dirty)];
    forall b | b in st' && b.nodeID == a.nodeID ensures Written(disk', st', b) {
      assert Written(disk, st, b);
    }
  }

  /** One page of the backend is another; the rest is as it was. */
  ghost predicate OnlyPage(disk: map<GlobalAddress, Page>, disk': map<GlobalAddress, Page>, a: GlobalAddress) {
    disk'.Keys == disk.Keys && forall b | b in disk && b != a :: disk'[b] == disk[b]
  }

  /** The tree is the one before with other entries in one leaf, and only that leaf's page was written. */
  ghost predicate LeafNow(disk: map<GlobalAddress, Page>, disk': map<GlobalAddress, Page>, st: Store, st': Store,
                          leaf: GlobalAddress, es: seq<Entry>) {
    leaf in st && st[leaf].Leaf? && st' == WithLeaf(st, leaf, es) && OnlyPage(disk, disk', Local(leaf))
  }

  /** update: as Lookup, and the value of a present key changes in place. */
  method Update(backend: InMemoryBackend, root: GlobalAddress, k: Key, v: Value,
                ghost st: Store, ghost top: GlobalAddress, ghost height: nat, ghost m: map<Key, Value>)
    returns (code: int, root': GlobalAddress, ghost st': Store)
    requires backend.Valid() && TreeOnDisk(backend.disk, st, root.nodeID, top, height, m) && root in st
    modifies backend`disk, backend.store
    ensures backend.Valid()
    ensures var l := Land(st, top, height, root, k);
            && code == (if l.Elsewhere? then 0 else if !st[root].Covers(k) then -1 else if k in m then 1 else 2)
            && root' == (if code == 1 then l.leaf else root)
    ensures var l := Land(st, top, height, root, k);
            if code == 1
            then LeafNow(old(backend.disk), backend.disk, st, st', l.leaf, LeafUpdate(st[l.leaf].entries, k, v))
            else st' == st && backend.disk == old(backend.disk)
    ensures TreeOnDisk(backend.disk, st', root.nodeID, top, height, if code == 1 then m[k := v] else m)
  {
    hide Holds, TreeOk;
    st' := st;
    var here, node, page := Descend(backend, root, k, st, top, height, m);
    if !here {
      return 0, root, st;
    }
    if !page.node.Covers(k) {
      return -1, root, st;
    }
    LeafAnswers(st, top, height, m, node, k);
    var es := page.node.entries;
    var pos := LowerBound(Keys(es), k);
    if pos < |es| && es[pos].key == k {
      UpdateAtLeaf(st, top, height, m, node, k, v);
      LeafRewritten(backend.disk, st, top, height, m, node, es[pos := Entry(k, v)], page.dirty, m[k := v]);
      st' := WithLeaf(st, node, es[pos := Entry(k, v)]);
      var ok := backend.Write(node, page.(node := page.node.(entries := es[pos := Entry(k, v)])));
      return 1, page.remote, st';
    }
    return 2, root, st;
  }

  /** insert: -1 also when the leaf is full, whether or not it holds k; 1 for a new key, 2 for one
      whose value was replaced. */
  method Insert(backend: InMemoryBackend, root: GlobalAddress, k: Key, v: Value,
                ghost st: Store, ghost top: GlobalAddress, ghost height: nat, ghost m: map<Key, Value>)
    returns (code: int, root': GlobalAddress, ghost st': Store)
    requires backend.Valid() && TreeOnDisk(backend.disk, st, root.nodeID, top, height, m) && root in st
    modifies backend`disk, backend.store
    ensures backend.Valid()
    ensures var l := Land(st, top, height, root, k);
            && code == (if l.Elsewhere? then 0 else if !st[root].Covers(k) || |st[l.leaf].entries| == 59 then -1
                        else if k in m then 2 else 1)
            && root' == (if code > 0 then l.leaf else root)
    ensures var l := Land(st, top, height, root, k);
            if code > 0
            then LeafNow(old(backend.disk), backend.disk, st, st', l.leaf, LeafInsert(st[l.leaf].entries, k, v))
            else st' == st && backend.disk == old(backend.disk)
    ensures TreeOnDisk(backend.disk, st', root.nodeID, top, height, if code > 0 then m[k := v] else m)
  {
    var here, node, page := Descend(backend, root, k, st, top, height, m);
    if !here {
      return 0, root, st;
    }
    if !page.node.Covers(k) || page.node.Full() {
      return -1, root, st;
    }
    LeafAnswers(st, top, height, m, node, k);
    InsertAtLeaf(st, top, height, m, node, k, v);
    var es := page.node.entries;
    LeafRewritten(backend.disk, st, top, height, m, node, LeafInsert(es, k, v), true, m[k := v]);
    st' := WithLeaf(st, node, LeafInsert(es, k, v));
    var ok := backend.Write(node, page.(node := page.node.(entries := LeafInsert(es, k, v)), dirty := true));
    return if LeafFind(es, k).None? then 1 else 2, page.remote, st';
  }

  /** remove: 1 when k was there, 2 when it was not. */
  method Remove(backend: InMemoryBackend, root: GlobalAddress, k: Key,
                ghost st: Store, ghost top: GlobalAddress, ghost height: nat, ghost m: map<Key, Value>)
    returns (code: int, root': GlobalAddress, ghost st': Store)
    requires backend.Valid() && TreeOnDisk(backend.disk, st, root.nodeID, top, height, m) && root in st
    modifies backend`disk, backend.store
    ensures backend.Valid()
    ensures var l := Land(st, top, height, root, k);
            && code == (if l.Elsewhere? then 0 else if !st[root].Covers(k) then -1 else if k in m then 1 else 2)
            && root' == (if code > 0 then l.leaf else root)
    ensures var l := Land(st, top, height, root, k);
            if code == 1
            then LeafNow(old(backend.disk), backend.disk, st, st', l.leaf, LeafRemove(st[l.leaf].entries, k))
            else st' == st && backend.disk == old(backend.disk)
    ensures TreeOnDisk(backend.disk, st', root.nodeID, top, height, if code > 0 then m - {k} else m)
  {
    var here, node, page := Descend(backend, root, k, st, top, height, m);
    if !here {
      return 0, root, st;
    }
    if !page.node.Covers(k) {
      return -1, root, st;
    }
    LeafAnswers(st, top, height, m, node, k);
    RemoveAtLeaf(st, top, height, m, node, k);
    var es := page.node.entries;
    if LeafFind(es, k).None? {
      assert m - {k} == m;
      return 2, page.remote, st;
    }
    LeafRewritten(backend.disk, st, top, height, m, node, LeafRemove(es, k), true, m - {k});
    st' := WithLeaf(st, node, LeafRemove(es, k));
    var ok := backend.Write(node, page.(node := page.node.(entries := LeafRemove(es, k)), dirty := true));
    return 1, page.remote, st';
  }

  // --- Agreement with the cached tree ---

  /** With every page on one memory node no descent leaves it. */
  lemma {:induction false} LandsHere(st: Store, top: GlobalAddress, height: nat, a: GlobalAddress, k: Key)
    requires TreeOk(st, top, height) && a in st && forall b | b in st :: b.nodeID == a.nodeID
    ensures Land(st, top, height, a, k).Here?
    decreases st[a].Level()
  {
    if st[a].Inner? {
      StepKeepsCover(st, top, height, a, k);
      LandsHere(st, top, height, st[a].children[LowerBound(st[a].keys, k)], k);
    }
  }

  /** A flushed backend holds the whole tree, on memory node 0. */
  lemma Flushed(t: LeanStoreTree, k: Key)
    requires t.Valid()
    requires forall a | a in t.cache.logical :: a in t.cache.backend.disk && t.cache.backend.disk[a].remote == a
                                                && t.cache.backend.disk[a].node == Lift(t.cache.logical[a])
    ensures t.cache.backend.Valid() && t.root in t.cache.logical && t.root.nodeID == 0
            && t.cache.logical[t.root].Covers(k)
    ensures TreeOnDisk(t.cache.backend.disk, t.cache.logical, 0, t.root, t.height, t.contents)
    ensures Land(t.cache.logical, t.root, t.height, t.root, k).Here?
  {
    forall a | a in t.cache.logical ensures Written(t.cache.backend.disk, t.cache.logical, a) && a.nodeID == 0 {
    }
    LandsHere(t.cache.logical, t.root, t.height, t.root, k);
  }

  /** The flush, with the backend as the reader finds it. */
  method FlushOut(t: LeanStoreTree, k: Key)
    requires t.Valid()
    modifies t.Repr()
    ensures t.Valid() && t.contents == old(t.contents)
    ensures t.cache.backend.Valid() && t.root in t.cache.logical && t.root.nodeID == 0
            && t.cache.logical[t.root].Covers(k)
    ensures TreeOnDisk(t.cache.backend.disk, t.cache.logical, 0, t.root, t.height, t.contents)
    ensures Land(t.cache.logical, t.root, t.height, t.root, k).Here?
  {
    hide TreeInv;
    hide TreeOnDisk;
    hide Lift;
    hide Land;
    hide Inv;
    t.Flush();
    Flushed(t, k);
  }

  /** After a flush the backend alone answers as the cached tree does: 1 with the value of a present
      key, 2 for an absent one, never 0 or -1. */
  method FlushThenLookup(t: LeanStoreTree, k: Key) returns (code: int, v: Value)
    requires t.Valid()
    modifies t.Repr()
    ensures t.Valid() && t.contents == old(t.contents)
    ensures code == if k in t.contents then 1 else 2
    ensures code == 1 ==> v == t.contents[k]
  {
    hide TreeInv;
    hide TreeOnDisk;
    hide Lift;
    hide Land;
    hide Inv;
    FlushOut(t, k);
    var g;
    code, v, g := Lookup(t.cache.backend, t.root, k, t.cache.logical, t.root, t.height, t.contents);
  }
}
