/** The B+tree as the pages at backend addresses describe it, with no cache in sight.
    Its shape is stated page by page: every slot's child has the level and the interval
    the slot prescribes, and the pages of one level have disjoint intervals. */
module BPlusTree {
  import opened Types
  import opened Node

  /** What every allocated backend address logically holds. */
  type Store = map<GlobalAddress, Node<GlobalAddress>>

  ghost predicate NodesOk(st: Store) {
    forall a {:trigger NodeOk(st[a])} | a in st :: NodeOk(st[a])
  }

  /** Slot i of n names a page of the level and interval the slot prescribes. */
  ghost predicate SlotOk(st: Store, n: Node<GlobalAddress>, i: nat) {
    && n.Inner? && i < |n.children| && i <= |n.keys|
    && n.children[i] in st && Fits(st[n.children[i]], n, i)
  }

  ghost predicate LinkOk(st: Store, n: Node<GlobalAddress>) {
    n.Inner? ==> forall i {:trigger SlotOk(st, n, i)} | 0 <= i < |n.children| :: SlotOk(st, n, i)
  }

  predicate Apart<C>(m: Node<C>, n: Node<C>) {
    m.hi <= n.lo || n.hi <= m.lo
  }

  /** Pages of one level share no key. */
  ghost predicate LevelsApart(st: Store) {
    forall a, b {:trigger Apart(st[a], st[b])} | a in st && b in st && a != b && st[a].Level() == st[b].Level() ::
        Apart(st[a], st[b])
  }

  predicate Below<C>(n: Node<C>, height: nat) {
    n.Level() + 1 < height
  }

  ghost predicate TopOk(st: Store, root: GlobalAddress, height: nat) {
    && root in st && st[root].lo == 0 && st[root].hi == KEY_MAX && st[root].Level() + 1 == height
    && forall a {:trigger Below(st[a], height)} | a in st && a != root :: Below(st[a], height)
  }

  /** Pages that came out of a split keep at least INNER_MIN keys. */
  ghost predicate WellFilled(st: Store, root: GlobalAddress) {
    forall a {:trigger Filled(st[a])} | a in st && a != root :: Filled(st[a])
  }

  predicate Filled<C>(n: Node<C>) {
    n.Inner? ==> |n.keys| >= INNER_MIN
  }

  ghost predicate TreeOk(st: Store, root: GlobalAddress, height: nat) {
    && NodesOk(st)
    && (forall a {:trigger LinkOk(st, st[a])} | a in st :: LinkOk(st, st[a]))
    && LevelsApart(st)
    && TopOk(st, root, height)
    && WellFilled(st, root)
  }

  /** Some leaf stores this entry. */
  ghost predicate HasEntry(st: Store, e: Entry) {
    exists a | a in st :: st[a].Leaf? && e in st[a].entries
  }

  /** The leaves together store exactly the map m. */
  ghost predicate Holds(st: Store, m: map<Key, Value>) {
    forall e: Entry :: HasEntry(st, e) <==> e.key in m && m[e.key] == e.value
  }

  // --- Which page is responsible for a key ---

  lemma OnlyCover(st: Store, root: GlobalAddress, height: nat, a: GlobalAddress, b: GlobalAddress, k: Key)
    requires TreeOk(st, root, height) && a in st && b in st
    requires st[a].Level() == st[b].Level() && st[a].Covers(k) && st[b].Covers(k)
    ensures a == b
  {
    assert NodeOk(st[a]) && NodeOk(st[b]);
    assert a != b ==> Apart(st[a], st[b]);
  }

  /** No page hangs from two slots. */
  lemma OnlyParent(st: Store, root: GlobalAddress, height: nat,
                   p: GlobalAddress, i: nat, q: GlobalAddress, j: nat)
    requires TreeOk(st, root, height) && p in st && q in st && st[p].Inner? && st[q].Inner?
    requires i < |st[p].children| && j < |st[q].children| && st[p].children[i] == st[q].children[j]
    ensures p == q && i == j
  {
    assert LinkOk(st, st[p]) && LinkOk(st, st[q]);
    assert SlotOk(st, st[p], i) && SlotOk(st, st[q], j);
    var k := st[st[p].children[i]].hi;
    assert NodeOk(st[p]) && NodeOk(st[q]);
    ChildIntervalProper(st[p], i);
    ChildIntervalProper(st[q], j);
    OnlyCover(st, root, height, p, q, k);
    if i < j {
      SlotsDisjoint(st[p], i, j);
    } else if j < i {
      SlotsDisjoint(st[p], j, i);
    }
  }

  /** The part of a map a page is responsible for. */
  ghost function Share(m: map<Key, Value>, n: Node<GlobalAddress>): map<Key, Value> {
    map k | k in m && n.Covers(k) :: m[k]
  }

  /** A leaf stores exactly its share of the whole map. */
  lemma LeafStoresShare(st: Store, root: GlobalAddress, height: nat, m: map<Key, Value>, a: GlobalAddress)
    requires TreeOk(st, root, height) && Holds(st, m) && a in st && st[a].Leaf?
    ensures Stores(st[a].entries, Share(m, st[a]))
  {
    var es, s := st[a].entries, Share(m, st[a]);
    assert NodeOk(st[a]);
    forall i | 0 <= i < |es| ensures es[i].key in s && s[es[i].key] == es[i].value {
      assert es[i] in es;
      assert HasEntry(st, es[i]);
    }
    forall k | k in s ensures Listed(es, s, k) {
      var e := Entry(k, m[k]);
      assert HasEntry(st, e);
      var b :| b in st && st[b].Leaf? && e in st[b].entries;
      assert NodeOk(st[b]);
      OnlyCover(st, root, height, a, b, k);
    }
  }

  /** Looking in the one leaf that covers k answers for the whole tree. */
  lemma LeafAnswers(st: Store, root: GlobalAddress, height: nat, m: map<Key, Value>, a: GlobalAddress, k: Key)
    requires TreeOk(st, root, height) && Holds(st, m) && a in st && st[a].Leaf? && st[a].Covers(k)
    ensures LeafFind(st[a].entries, k) == if k in m then Some(m[k]) else None
  {
    LeafStoresShare(st, root, height, m, a);
    FindReadsMap(st[a].entries, Share(m, st[a]), k);
  }

  // --- Changing one leaf ---

  ghost predicate SameOutside(m: map<Key, Value>, m': map<Key, Value>, n: Node<GlobalAddress>) {
    forall k: Key | !n.Covers(k) :: (k in m <==> k in m') && (k in m && k in m' ==> m[k] == m'[k])
  }

  ghost function WithLeaf(st: Store, a: GlobalAddress, es: seq<Entry>): Store
    requires a in st && st[a].Leaf?
  {
    st[a := st[a].(entries := es)]
  }

  /** The tree shape does not depend on what a leaf stores within its interval. */
  lemma ReplaceLeafShape(st: Store, root: GlobalAddress, height: nat, a: GlobalAddress, es: seq<Entry>)
    requires TreeOk(st, root, height) && a in st && st[a].Leaf?
    requires NodeOk(st[a].(entries := es))
    ensures TreeOk(WithLeaf(st, a, es), root, height)
  {
    var st' := WithLeaf(st, a, es);
    forall b | b in st'
      ensures NodeOk(st'[b]) && LinkOk(st', st'[b]) && (b != root ==> Below(st'[b], height) && Filled(st'[b]))
    {
      assert NodeOk(st[b]) && LinkOk(st, st[b]) && (b != root ==> Below(st[b], height) && Filled(st[b]));
      if st[b].Inner? {
        forall i | 0 <= i < |st[b].children|
          ensures SlotOk(st', st'[b], i)
        {
          assert SlotOk(st, st[b], i);
        }
      }
    }
    forall b, c | b in st' && c in st' && b != c && st'[b].Level() == st'[c].Level() ensures Apart(st'[b], st'[c]) {
      assert Apart(st[b], st[c]);
    }
  }

  /** Only entries of keys the leaf covers come and go. */
  lemma ReplaceLeafEntries(st: Store, root: GlobalAddress, height: nat, a: GlobalAddress, es: seq<Entry>, e: Entry)
    requires TreeOk(st, root, height) && a in st && st[a].Leaf?
    requires NodeOk(st[a].(entries := es))
    ensures HasEntry(WithLeaf(st, a, es), e) <==> if st[a].Covers(e.key) then e in es else HasEntry(st, e)
  {
    var st' := WithLeaf(st, a, es);
    assert NodeOk(st[a]);
    if HasEntry(st', e) {
      var b :| b in st' && st'[b].Leaf? && e in st'[b].entries;
      if b != a {
        assert NodeOk(st[b]);
        assert Apart(st[a], st[b]);
      }
    }
    if st[a].Covers(e.key) {
      if e in es { assert e in st'[a].entries; }
    } else if HasEntry(st, e) {
      var b :| b in st && st[b].Leaf? && e in st[b].entries;
      assert b != a;
      assert e in st'[b].entries;
    }
  }

  lemma ReplaceLeaf(st: Store, root: GlobalAddress, height: nat, m: map<Key, Value>,
                    a: GlobalAddress, es: seq<Entry>, m': map<Key, Value>)
    requires TreeOk(st, root, height) && Holds(st, m) && a in st && st[a].Leaf?
    requires |es| <= LEAF_CAPACITY && Stores(es, Share(m', st[a])) && SameOutside(m, m', st[a])
    ensures TreeOk(WithLeaf(st, a, es), root, height) && Holds(WithLeaf(st, a, es), m')
  {
    var n, s := st[a], Share(m', st[a]);
    assert NodeOk(n);
    assert NodeOk(n.(entries := es)) by {
      forall i | 0 <= i < |es| ensures n.Covers(es[i].key) {
        assert es[i].key in s;
      }
    }
    ReplaceLeafShape(st, root, height, a, es);
    forall e: Entry ensures HasEntry(WithLeaf(st, a, es), e) <==> e.key in m' && m'[e.key] == e.value {
      ReplaceLeafEntries(st, root, height, a, es, e);
      if n.Covers(e.key) {
        if e in es {
          var i :| 0 <= i < |es| && es[i] == e;
          assert es[i].key in s && s[es[i].key] == es[i].value;
        } else if e.key in m' {
          assert Listed(es, s, e.key);
        }
      } else {
        assert HasEntry(st, e) <==> e.key in m && m[e.key] == e.value;
      }
    }
  }

  lemma ShareOfPut(m: map<Key, Value>, n: Node<GlobalAddress>, k: Key, v: Value)
    requires n.Covers(k)
    ensures Share(m[k := v], n) == Share(m, n)[k := v] && SameOutside(m, m[k := v], n)
    ensures Share(m - {k}, n) == Share(m, n) - {k} && SameOutside(m, m - {k}, n)
    ensures k in m <==> k in Share(m, n)
  {
  }

  /** Inserting into the leaf that covers k turns the tree's map m into m[k := v]. */
  lemma InsertAtLeaf(st: Store, root: GlobalAddress, height: nat, m: map<Key, Value>,
                     a: GlobalAddress, k: Key, v: Value)
    requires TreeOk(st, root, height) && Holds(st, m) && a in st && st[a].Leaf? && st[a].Covers(k)
    requires !st[a].Full() || k in m
    ensures var st' := WithLeaf(st, a, LeafInsert(st[a].entries, k, v));
            TreeOk(st', root, height) && Holds(st', m[k := v])
  {
    assert NodeOk(st[a]);
    LeafStoresShare(st, root, height, m, a);
    ShareOfPut(m, st[a], k, v);
    InsertUpdatesMap(st[a].entries, Share(m, st[a]), k, v);
    ReplaceLeaf(st, root, height, m, a, LeafInsert(st[a].entries, k, v), m[k := v]);
  }

  lemma UpdateAtLeaf(st: Store, root: GlobalAddress, height: nat, m: map<Key, Value>,
                     a: GlobalAddress, k: Key, v: Value)
    requires TreeOk(st, root, height) && Holds(st, m) && a in st && st[a].Leaf? && st[a].Covers(k)
    ensures var st' := WithLeaf(st, a, LeafUpdate(st[a].entries, k, v));
            TreeOk(st', root, height) && Holds(st', if k in m then m[k := v] else m)
  {
    assert NodeOk(st[a]);
    LeafStoresShare(st, root, height, m, a);
    ShareOfPut(m, st[a], k, v);
    UpdateUpdatesMap(st[a].entries, Share(m, st[a]), k, v);
    ReplaceLeaf(st, root, height, m, a, LeafUpdate(st[a].entries, k, v), if k in m then m[k := v] else m);
  }

  lemma RemoveAtLeaf(st: Store, root: GlobalAddress, height: nat, m: map<Key, Value>,
                     a: GlobalAddress, k: Key)
    requires TreeOk(st, root, height) && Holds(st, m) && a in st && st[a].Leaf? && st[a].Covers(k)
    ensures var st' := WithLeaf(st, a, LeafRemove(st[a].entries, k));
            TreeOk(st', root, height) && Holds(st', m - {k})
  {
    assert NodeOk(st[a]);
    LeafStoresShare(st, root, height, m, a);
    ShareOfPut(m, st[a], k, 0);
    RemoveShrinksMap(st[a].entries, Share(m, st[a]), k);
    ReplaceLeaf(st, root, height, m, a, LeafRemove(st[a].entries, k), m - {k});
  }

  // --- Splitting a page ---

  /** Splitting child i of p, with the right half at the fresh address b. */
  ghost function SplitUnder(st: Store, p: GlobalAddress, i: nat, b: GlobalAddress): Store
    requires p in st && NodeOk(st[p]) && st[p].Inner? && i < |st[p].children|
    requires st[p].children[i] in st && NodeOk(st[st[p].children[i]]) && st[st[p].children[i]].Full()
  {
    var a := st[p].children[i];
    var h := Split(st[a]);
    st[a := h.left][b := h.right][p := InnerInsert(st[p], h.sep, b)]
  }

  /** Splitting the root, with the right half at b and the new root at r. */
  ghost function GrowRoot(st: Store, root: GlobalAddress, b: GlobalAddress, r: GlobalAddress): Store
    requires root in st && NodeOk(st[root]) && st[root].Full()
  {
    var h := Split(st[root]);
    st[root := h.left][b := h.right]
      [r := Inner(st[root].Level() + 1, 0, KEY_MAX, [h.sep], [root, b])]
  }

  /** A store in which page a was replaced by its two halves. */
  ghost predicate Halved(st: Store, st': Store, a: GlobalAddress, b: GlobalAddress) {
    && a in st && NodeOk(st[a]) && st[a].Full() && b !in st && a in st' && b in st'
    && st'[a] == Split(st[a]).left && st'[b] == Split(st[a]).right
  }

  /** Entries and children of a are still there, in a or in b. */
  lemma HalvesKeepEntries(st: Store, st': Store, a: GlobalAddress, b: GlobalAddress)
    requires NodesOk(st) && Halved(st, st', a, b) && st.Keys <= st'.Keys
    requires forall c | c in st && c != a && st[c].Leaf? :: st'[c] == st[c]
    requires forall c | c in st' && c != b && c !in st :: st'[c].Inner?
    requires forall c | c in st && st[c].Inner? :: st'[c].Inner?
    ensures forall e: Entry :: HasEntry(st', e) <==> HasEntry(st, e)
  {
    SplitOk(st[a]);
    SplitIsPartition(st[a]);
    var h := Split(st[a]);
    forall e: Entry ensures HasEntry(st', e) <==> HasEntry(st, e) {
      if HasEntry(st, e) {
        var c :| c in st && st[c].Leaf? && e in st[c].entries;
        if c == a {
          assert e in st'[a].entries || e in st'[b].entries;
        } else {
          assert e in st'[c].entries;
        }
      }
      if HasEntry(st', e) {
        var c :| c in st' && st'[c].Leaf? && e in st'[c].entries;
        if c == a || c == b {
          assert e in h.left.entries + h.right.entries;
          assert e in st[a].entries;
        } else {
          assert e in st[c].entries;
        }
      }
    }
  }

  /** The children of the right half are the old children with their old intervals. */
  lemma HalvesLink(st: Store, st': Store, root: GlobalAddress, height: nat, a: GlobalAddress, b: GlobalAddress)
    requires TreeOk(st, root, height) && Halved(st, st', a, b) && st.Keys <= st'.Keys
    requires forall c | c in st && c != a && st[c].Level() < st[a].Level() :: st'[c] == st[c]
    ensures LinkOk(st', st'[a]) && LinkOk(st', st'[b])
  {
    var n := st[a];
    SplitOk(n);
    if n.Inner? {
      assert LinkOk(st, n);
      var c := |st'[a].keys|;
      hide TreeOk;
      forall i | 0 <= i < |st'[a].children|
        ensures SlotOk(st', st'[a], i)
      {
        assert st'[a].children[i] == n.children[i];
        assert SlotOk(st, n, i);
      }
      forall i | 0 <= i < |st'[b].children|
        ensures SlotOk(st', st'[b], i)
      {
        assert st'[b].children[i] == n.children[c + 1 + i];
        assert SlotOk(st, n, c + 1 + i);
      }
    }
  }

  /** What SplitUnder needs: a full child in slot i of p, room in p, and a fresh address. */
  ghost predicate CanSplit(st: Store, root: GlobalAddress, height: nat, p: GlobalAddress, i: nat, b: GlobalAddress) {
    && TreeOk(st, root, height) && b !in st
    && p in st && NodeOk(st[p]) && !st[p].Full() && SlotOk(st, st[p], i)
    && NodeOk(st[st[p].children[i]]) && st[st[p].children[i]].Full()
  }

  /** The three pages a split touches. */
  lemma SplitUnderPages(st: Store, root: GlobalAddress, height: nat, p: GlobalAddress, i: nat, b: GlobalAddress)
    requires CanSplit(st, root, height, p, i, b)
    ensures var a, st' := st[p].children[i], SplitUnder(st, p, i, b);
            && Halved(st, st', a, b) && a != p && st'[p] == InnerInsert(st[p], Split(st[a]).sep, b)
            && NodeOk(st'[a]) && NodeOk(st'[b]) && NodeOk(st'[p])
            && LowerBound(st[p].keys, Split(st[a]).sep) == i
    ensures var st' := SplitUnder(st, p, i, b); forall c | c in st' && c in st :: st'[c].Level() == st[c].Level()
  {
    var a := st[p].children[i];
    SplitOk(st[a]);
    InnerInsertOk(st[p], i, Split(st[a]).sep, b);
  }

  /** The child in any other slot is left alone. */
  lemma OtherChildKept(st: Store, root: GlobalAddress, height: nat, p: GlobalAddress, i: nat, b: GlobalAddress,
                       c: GlobalAddress, j: nat)
    requires CanSplit(st, root, height, p, i, b) && c in st && st[c].Inner? && j < |st[c].children|
    requires st[c].Level() <= st[p].Level() && (c != p || j != i)
    ensures SlotOk(st, st[c], j) && SplitUnder(st, p, i, b)[st[c].children[j]] == st[st[c].children[j]]
    ensures st[c].children[j] in SplitUnder(st, p, i, b)
  {
    assert LinkOk(st, st[c]);
    assert SlotOk(st, st[c], j);
    if st[c].children[j] == st[p].children[i] {
      OnlyParent(st, root, height, c, j, p, i);
    }
  }

  lemma SplitUnderParentLinks(st: Store, root: GlobalAddress, height: nat, p: GlobalAddress, i: nat, b: GlobalAddress)
    requires CanSplit(st, root, height, p, i, b)
    ensures LinkOk(SplitUnder(st, p, i, b), SplitUnder(st, p, i, b)[p])
  {
    var a, st' := st[p].children[i], SplitUnder(st, p, i, b);
    SplitUnderPages(st, root, height, p, i, b);
    SplitOk(st[a]);
    InnerInsertOk(st[p], i, Split(st[a]).sep, b);
    var m := st'[p];
    forall j | 0 <= j < |m.children| ensures SlotOk(st', m, j) {
      if j != i && j != i + 1 {
        OtherChildKept(st, root, height, p, i, b, p, OldSlot(i, j));
        InnerInsertSlot(st[p], i, Split(st[a]).sep, b, j);
      }
    }
  }

  lemma SplitUnderOtherLinks(st: Store, root: GlobalAddress, height: nat, p: GlobalAddress, i: nat, b: GlobalAddress,
                             c: GlobalAddress)
    requires CanSplit(st, root, height, p, i, b)
    requires c in st && c != p && c != st[p].children[i]
    ensures LinkOk(SplitUnder(st, p, i, b), st[c])
  {
    var a, st' := st[p].children[i], SplitUnder(st, p, i, b);
    SplitUnderPages(st, root, height, p, i, b);
    assert LinkOk(st, st[c]);
    if st[c].Inner? {
      forall j | 0 <= j < |st[c].children| ensures SlotOk(st', st[c], j) {
        assert SlotOk(st, st[c], j);
        if st[c].children[j] == a { OnlyParent(st, root, height, c, j, p, i); }
      }
    }
  }

  lemma SplitUnderShape(st: Store, root: GlobalAddress, height: nat, p: GlobalAddress, i: nat, b: GlobalAddress)
    requires CanSplit(st, root, height, p, i, b)
    ensures TreeOk(SplitUnder(st, p, i, b), root, height)
  {
    var a, st' := st[p].children[i], SplitUnder(st, p, i, b);
    SplitUnderPages(st, root, height, p, i, b);
    SplitOk(st[a]);
    forall c | c in st' ensures NodeOk(st'[c]) && LinkOk(st', st'[c]) {
      if c == p {
        SplitUnderParentLinks(st, root, height, p, i, b);
      } else if c == a || c == b {
        HalvesLink(st, st', root, height, a, b);
      } else {
        assert NodeOk(st[c]);
        SplitUnderOtherLinks(st, root, height, p, i, b, c);
      }
    }
    SplitUnderRest(st, root, height, p, i, b);
  }

  lemma SplitUnderRest(st: Store, root: GlobalAddress, height: nat, p: GlobalAddress, i: nat, b: GlobalAddress)
    requires CanSplit(st, root, height, p, i, b)
    ensures var st' := SplitUnder(st, p, i, b); LevelsApart(st') && TopOk(st', root, height) && WellFilled(st', root)
  {
    hide LowerBound;
    var a, st' := st[p].children[i], SplitUnder(st, p, i, b);
    SplitUnderPages(st, root, height, p, i, b);
    SplitOk(st[a]);
    assert a != root ==> Below(st[a], height) && Filled(st[a]);
    forall c | c in st' && c != root ensures Below(st'[c], height) && Filled(st'[c]) {
      var c' := if c == b then a else c;
      assert c' != root ==> Below(st[c'], height) && Filled(st[c']);
    }
    forall c, d | c in st' && d in st' && c != d && st'[c].Level() == st'[d].Level()
      ensures Apart(st'[c], st'[d])
    {
      var c', d' := if c == b then a else c, if d == b then a else d;
      assert c' != d' ==> Apart(st[c'], st[d']);
    }
  }

  /** Splitting a full child keeps the whole tree shape and every entry. */
  lemma SplitUnderKeepsTree(st: Store, root: GlobalAddress, height: nat, m: map<Key, Value>,
                            p: GlobalAddress, i: nat, b: GlobalAddress)
    requires CanSplit(st, root, height, p, i, b) && Holds(st, m)
    ensures TreeOk(SplitUnder(st, p, i, b), root, height) && Holds(SplitUnder(st, p, i, b), m)
  {
    SplitUnderShape(st, root, height, p, i, b);
    SplitUnderPages(st, root, height, p, i, b);
    HalvesKeepEntries(st, SplitUnder(st, p, i, b), st[p].children[i], b);
  }

  lemma GrowRootLinks(st: Store, root: GlobalAddress, height: nat, b: GlobalAddress, r: GlobalAddress)
    requires TreeOk(st, root, height) && NodeOk(st[root]) && st[root].Full()
    requires b !in st && r !in st && b != r
    ensures var st' := GrowRoot(st, root, b, r); forall c | c in st' :: NodeOk(st'[c]) && LinkOk(st', st'[c])
  {
    var st' := GrowRoot(st, root, b, r);
    SplitOk(st[root]);
    forall c | c in st' ensures NodeOk(st'[c]) && LinkOk(st', st'[c]) {
      if c == root || c == b {
        HalvesLink(st, st', root, height, root, b);
      } else if c == r {
        forall i | 0 <= i < 2 ensures SlotOk(st', st'[r], i) {
        }
      } else {
        assert NodeOk(st[c]) && LinkOk(st, st[c]) && Below(st[c], height);
        if st[c].Inner? {
          forall j | 0 <= j < |st[c].children| ensures SlotOk(st', st[c], j) {
            assert SlotOk(st, st[c], j);
          }
        }
      }
    }
  }

  /** Splitting a full root keeps the tree shape and every entry, one level higher. */
  lemma GrowRootKeepsTree(st: Store, root: GlobalAddress, height: nat, m: map<Key, Value>,
                          b: GlobalAddress, r: GlobalAddress)
    requires TreeOk(st, root, height) && Holds(st, m) && NodeOk(st[root]) && st[root].Full()
    requires b !in st && r !in st && b != r
    ensures TreeOk(GrowRoot(st, root, b, r), r, height + 1) && Holds(GrowRoot(st, root, b, r), m)
  {
    var st' := GrowRoot(st, root, b, r);
    GrowRootLinks(st, root, height, b, r);
    SplitOk(st[root]);
    GrowRootRest(st, root, height, b, r);
    HalvesKeepEntries(st, st', root, b);
  }

  lemma GrowRootRest(st: Store, root: GlobalAddress, height: nat, b: GlobalAddress, r: GlobalAddress)
    requires TreeOk(st, root, height) && NodeOk(st[root]) && st[root].Full()
    requires b !in st && r !in st && b != r
    ensures var st' := GrowRoot(st, root, b, r); LevelsApart(st') && TopOk(st', r, height + 1) && WellFilled(st', r)
  {
    var st' := GrowRoot(st, root, b, r);
    SplitOk(st[root]);
    forall c | c in st' && c != r ensures Below(st'[c], height + 1) && Filled(st'[c]) {
      assert c != root && c != b ==> Below(st[c], height) && Filled(st[c]);
    }
    forall c, d | c in st' && d in st' && c != d && st'[c].Level() == st'[d].Level()
      ensures Apart(st'[c], st'[d])
    {
      assert c == r || Below(st'[c], height + 1);
      assert d == r || Below(st'[d], height + 1);
      if c != r && d != r {
        var c', d' := if c == b then root else c, if d == b then root else d;
        assert c' != d' ==> Apart(st[c'], st[d']);
      }
    }
  }
}
