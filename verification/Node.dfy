/** What a page says, as a value, and what the page operations of
    include/cache/BtreeNode.h compute. BtreeNode.dfy proves the in-place code against
    these functions; the tree and the cache use them for the pages they hold. */
module Node {
  import opened Types

  /** sizeof(NodeBase): 8+8+8 for address, bitmap and parent, 7 one-byte fields padded to 8, two keys. */
  const NODE_BASE_SIZE: nat := 48
  const LEAF_CAPACITY: nat := (PAGE_SIZE - (8 * 2 + 8 * 2) - NODE_BASE_SIZE) / 16
  const INNER_SLOTS: nat := (PAGE_SIZE - NODE_BASE_SIZE - 8) / (8 + 8)
  const INNER_CAPACITY: nat := INNER_SLOTS - 1
  /** Fewest keys a split leaves in an inner node. */
  const INNER_MIN: nat := INNER_CAPACITY - (INNER_CAPACITY - INNER_CAPACITY / 2) - 1

  lemma Capacities()
    ensures LEAF_CAPACITY == 59 && INNER_SLOTS == 60 && INNER_CAPACITY == 59 && INNER_MIN == 28
  {
  }

  /** isFull: no page is full before it holds 59 entries or keys. */
  lemma FullAt59<C>(n: Node<C>)
    ensures n.Full() <==> if n.Leaf? then |n.entries| == 59 else |n.keys| == 59
  {
  }

  /** A page body; C is what a child slot holds. The interval of keys is (lo, hi]. */
  datatype Node<+C> =
    | Leaf(lo: Key, hi: Key, entries: seq<Entry>)
    | Inner(level: nat, lo: Key, hi: Key, keys: seq<Key>, children: seq<C>)
  {
    function Level(): nat {
      if Leaf? then 0 else level
    }

    predicate Full() {
      if Leaf? then |entries| == LEAF_CAPACITY else |keys| == INNER_CAPACITY
    }

    /** rangeValid: (lo, hi], and the least key belongs to the leftmost page. */
    predicate Covers(k: Key) {
      (k == 0 && k == lo) || lo < k <= hi
    }

    /** The interval of child i. */
    function ChildLo(i: nat): Key
      requires Inner? && i <= |keys|
    {
      if i == 0 then lo else keys[i - 1]
    }

    function ChildHi(i: nat): Key
      requires Inner? && i <= |keys|
    {
      if i == |keys| then hi else keys[i]
    }
  }

  // --- Search ---

  predicate Sorted(keys: seq<Key>) {
    forall i, j | 0 <= i < j < |keys| :: keys[i] < keys[j]
  }

  function Keys(es: seq<Entry>): (ks: seq<Key>)
    ensures |ks| == |es| && forall i | 0 <= i < |es| :: ks[i] == es[i].key
  {
    seq(|es|, i requires 0 <= i < |es| => es[i].key)
  }

  /** Position of the first key not below k. */
  function LowerBound(keys: seq<Key>, k: Key): (p: nat)
    ensures p <= |keys|
    ensures forall i | 0 <= i < p :: keys[i] < k
    ensures p < |keys| ==> k <= keys[p]
  {
    if keys == [] || k <= keys[0] then 0 else 1 + LowerBound(keys[1..], k)
  }

  lemma LowerBoundIs(keys: seq<Key>, k: Key, p: nat)
    requires Sorted(keys) && p <= |keys|
    requires forall i | 0 <= i < p :: keys[i] < k
    requires p < |keys| ==> k <= keys[p]
    ensures LowerBound(keys, k) == p
  {
  }

  /** BTreeInner::findIdx: the first slot holding this word, or -1. */
  function FindIdx(children: seq<Slot>, target: Slot): (i: int)
    ensures -1 <= i < |children|
    ensures i == -1 <==> target !in children
    ensures i >= 0 ==> children[i] == target && target !in children[..i]
  {
    if children == [] then -1
    else if children[0] == target then 0
    else
      var j := FindIdx(children[1..], target);
      if j == -1 then -1 else j + 1
  }

  // --- Leaf operations ---

  function LeafFind(es: seq<Entry>, k: Key): Option<Value> {
    var p := LowerBound(Keys(es), k);
    if p < |es| && es[p].key == k then Some(es[p].value) else None
  }

  function LeafInsert(es: seq<Entry>, k: Key, v: Value): seq<Entry> {
    var p := LowerBound(Keys(es), k);
    if p < |es| && es[p].key == k then es[p := Entry(k, v)]
    else es[..p] + [Entry(k, v)] + es[p..]
  }

  function LeafUpdate(es: seq<Entry>, k: Key, v: Value): seq<Entry> {
    var p := LowerBound(Keys(es), k);
    if p < |es| && es[p].key == k then es[p := Entry(k, v)] else es
  }

  function LeafRemove(es: seq<Entry>, k: Key): seq<Entry> {
    var p := LowerBound(Keys(es), k);
    if p < |es| && es[p].key == k then es[..p] + es[p + 1..] else es
  }

  /** rangeScan: entries from k on in this leaf, at most num, nothing when k is absent. */
  function LeafScan(es: seq<Entry>, k: Key, num: nat): seq<Entry> {
    var p := LowerBound(Keys(es), k);
    if p < |es| && es[p].key == k
    then es[p..p + (if |es| - p <= num then |es| - p else num)]
    else []
  }

  /** A sorted run of entries stores exactly the map m. */
  ghost predicate Stores(es: seq<Entry>, m: map<Key, Value>) {
    && Sorted(Keys(es))
    && (forall i | 0 <= i < |es| :: es[i].key in m && m[es[i].key] == es[i].value)
    && (forall k {:trigger Listed(es, m, k)} | k in m :: Listed(es, m, k))
  }

  ghost predicate Listed(es: seq<Entry>, m: map<Key, Value>, k: Key) {
    k in m && Entry(k, m[k]) in es
  }

  lemma FindReadsMap(es: seq<Entry>, m: map<Key, Value>, k: Key)
    requires Stores(es, m)
    ensures LeafFind(es, k) == if k in m then Some(m[k]) else None
  {
    if k in m {
      assert Listed(es, m, k);
      var i :| 0 <= i < |es| && es[i] == Entry(k, m[k]);
      LowerBoundIs(Keys(es), k, i);
    }
  }

  /** A key put between the smaller and the larger ones keeps the order. */
  lemma PlaceKey(keys: seq<Key>, k: Key, p: nat)
    requires Sorted(keys) && p <= |keys|
    requires forall i | 0 <= i < p :: keys[i] < k
    requires forall i | p <= i < |keys| :: k < keys[i]
    ensures Sorted(keys[..p] + [k] + keys[p..])
  {
    var ks := keys[..p] + [k] + keys[p..];
    forall i, j | 0 <= i < j < |ks| ensures ks[i] < ks[j] {
      var i', j' := if i < p then i else i - 1, if j < p then j else j - 1;
      assert i != p ==> ks[i] == keys[i'];
      assert j != p ==> ks[j] == keys[j'];
      if i != p && j != p {
        assert keys[i'] < keys[j'];
      }
    }
  }

  /** Putting an entry of a new key at its place. */
  lemma PlaceEntry(es: seq<Entry>, m: map<Key, Value>, e: Entry, p: nat)
    requires Stores(es, m) && p <= |es| && e.key !in m
    requires forall i | 0 <= i < p :: es[i].key < e.key
    requires forall i | p <= i < |es| :: e.key < es[i].key
    ensures Stores(es[..p] + [e] + es[p..], m[e.key := e.value])
  {
    var es', m' := es[..p] + [e] + es[p..], m[e.key := e.value];
    assert Sorted(Keys(es')) by {
      PlaceKey(Keys(es), e.key, p);
      assert Keys(es') == Keys(es)[..p] + [e.key] + Keys(es)[p..];
    }
    hide Sorted, Keys, Listed;
    forall x | x in m' ensures Listed(es', m', x) {
      assert x != e.key ==> Listed(es, m, x);
      PlaceListed(es, m, e, p, x);
    }
    forall i | 0 <= i < |es'| ensures es'[i].key in m' && m'[es'[i].key] == es'[i].value {
      if i != p {
        assert es'[i] == es[if i < p then i else i - 1];
      }
    }
  }

  lemma PlaceListed(es: seq<Entry>, m: map<Key, Value>, e: Entry, p: nat, x: Key)
    requires p <= |es| && (x == e.key || Listed(es, m, x))
    ensures Listed(es[..p] + [e] + es[p..], m[e.key := e.value], x)
  {
    var es' := es[..p] + [e] + es[p..];
    if x == e.key {
      assert es'[p] == e;
    } else {
      var i :| 0 <= i < |es| && es[i] == Entry(x, m[x]);
      assert es'[if i < p then i else i + 1] == es[i];
    }
  }

  /** Overwriting the entry of a key. */
  lemma OverwriteEntry(es: seq<Entry>, m: map<Key, Value>, p: nat, v: Value)
    requires Stores(es, m) && p < |es|
    ensures Stores(es[p := Entry(es[p].key, v)], m[es[p].key := v])
  {
    var k := es[p].key;
    var es', m' := es[p := Entry(k, v)], m[k := v];
    assert Keys(es') == Keys(es);
    forall i | 0 <= i < |es'| ensures es'[i].key in m' && m'[es'[i].key] == es'[i].value {
      if i != p {
        assert Keys(es)[i] != Keys(es)[p];
      }
    }
    forall x | x in m' ensures Listed(es', m', x) {
      if x == k {
        assert es'[p] == Entry(k, v);
      } else {
        assert Listed(es, m, x);
        var i :| 0 <= i < |es| && es[i] == Entry(x, m[x]);
        assert es'[i] == es[i];
      }
    }
  }

  lemma DropKey(keys: seq<Key>, p: nat)
    requires Sorted(keys) && p < |keys|
    ensures Sorted(keys[..p] + keys[p + 1..])
  {
    var ks := keys[..p] + keys[p + 1..];
    forall i, j | 0 <= i < j < |ks| ensures ks[i] < ks[j] {
      assert keys[if i < p then i else i + 1] < keys[if j < p then j else j + 1];
    }
  }

  /** Taking the entry of a key out. */
  lemma DropEntry(es: seq<Entry>, m: map<Key, Value>, p: nat)
    requires Stores(es, m) && p < |es|
    ensures Stores(es[..p] + es[p + 1..], m - {es[p].key})
  {
    var es', m' := es[..p] + es[p + 1..], m - {es[p].key};
    assert Sorted(Keys(es')) by {
      DropKey(Keys(es), p);
      assert Keys(es') == Keys(es)[..p] + Keys(es)[p + 1..];
    }
    forall i | 0 <= i < |es'| ensures es'[i].key in m' && m'[es'[i].key] == es'[i].value {
      var was := if i < p then i else i + 1;
      assert es'[i] == es[was] && Keys(es)[was] != Keys(es)[p];
    }
    forall x | x in m' ensures Listed(es', m', x) {
      assert Listed(es, m, x);
      assert es == es[..p] + [es[p]] + es[p + 1..];
    }
  }

  lemma InsertUpdatesMap(es: seq<Entry>, m: map<Key, Value>, k: Key, v: Value)
    requires Stores(es, m)
    ensures Stores(LeafInsert(es, k, v), m[k := v])
    ensures |LeafInsert(es, k, v)| == |es| + (if k in m then 0 else 1)
  {
    FindReadsMap(es, m, k);
    var p := LowerBound(Keys(es), k);
    if k in m {
      OverwriteEntry(es, m, p, v);
    } else {
      forall i | p <= i < |es| ensures k < es[i].key {
        assert Keys(es)[p] <= Keys(es)[i];
      }
      PlaceEntry(es, m, Entry(k, v), p);
    }
  }

  lemma UpdateUpdatesMap(es: seq<Entry>, m: map<Key, Value>, k: Key, v: Value)
    requires Stores(es, m)
    ensures Stores(LeafUpdate(es, k, v), if k in m then m[k := v] else m)
    ensures |LeafUpdate(es, k, v)| == |es|
  {
    FindReadsMap(es, m, k);
    if k in m {
      InsertUpdatesMap(es, m, k, v);
    }
  }

  lemma RemoveShrinksMap(es: seq<Entry>, m: map<Key, Value>, k: Key)
    requires Stores(es, m)
    ensures Stores(LeafRemove(es, k), m - {k})
    ensures |LeafRemove(es, k)| == |es| - (if k in m then 1 else 0)
  {
    FindReadsMap(es, m, k);
    if k in m {
      DropEntry(es, m, LowerBound(Keys(es), k));
    } else {
      assert m - {k} == m;
    }
  }

  // --- Splits and separator insertion ---

  /** The two halves of a split page and the key that separates them. */
  datatype Halves<+C> = Halves(left: Node<C>, sep: Key, right: Node<C>)

  function SplitLeaf<C>(n: Node<C>): Halves<C>
    requires n.Leaf? && |n.entries| >= 2
  {
    var c := |n.entries| / 2;
    var sep := n.entries[c - 1].key;
    Halves(Leaf(n.lo, sep, n.entries[..c]), sep, Leaf(sep, n.hi, n.entries[c..]))
  }

  function SplitInner<C>(n: Node<C>): Halves<C>
    requires n.Inner? && |n.keys| >= 2 && |n.children| == |n.keys| + 1
  {
    var right := |n.keys| - |n.keys| / 2;
    var c := |n.keys| - right - 1;
    var sep := n.keys[c];
    Halves(Inner(n.level, n.lo, sep, n.keys[..c], n.children[..c + 1]), sep,
           Inner(n.level, sep, n.hi, n.keys[c + 1..], n.children[c + 1..]))
  }

  function Split<C>(n: Node<C>): Halves<C>
    requires if n.Leaf? then |n.entries| >= 2 else |n.keys| >= 2 && |n.children| == |n.keys| + 1
  {
    if n.Leaf? then SplitLeaf(n) else SplitInner(n)
  }

  /** BTreeInner::insert: the separator at its place, the new child just right of the old one. */
  function InnerInsert<C>(n: Node<C>, sep: Key, child: C): Node<C>
    requires n.Inner? && |n.children| == |n.keys| + 1
  {
    var p := LowerBound(n.keys, sep);
    n.(keys := n.keys[..p] + [sep] + n.keys[p..],
       children := n.children[..p + 1] + [child] + n.children[p + 1..])
  }

  /** A page whose own fields are in order, whatever its children are. */
  predicate NodeOk<C>(n: Node<C>) {
    && n.lo < n.hi
    && match n
       case Leaf(lo, hi, es) =>
         && |es| <= LEAF_CAPACITY
         && Sorted(Keys(es))
         && forall i | 0 <= i < |es| :: n.Covers(es[i].key)
       case Inner(level, lo, hi, keys, children) =>
         && 1 <= level
         && 1 <= |keys| <= INNER_CAPACITY
         && |children| == |keys| + 1
         && Sorted(keys)
         && forall i | 0 <= i < |keys| :: lo < keys[i] < hi
  }

  /** c has the level and the interval that p's slot i prescribes (new_check_limit_match). */
  predicate Fits<C, D>(c: Node<D>, p: Node<C>, i: nat)
    requires p.Inner? && i <= |p.keys|
  {
    c.Level() + 1 == p.level && c.lo == p.ChildLo(i) && c.hi == p.ChildHi(i)
  }

  lemma ChildIntervalProper<C>(n: Node<C>, i: nat)
    requires NodeOk(n) && n.Inner? && i <= |n.keys|
    ensures n.lo <= n.ChildLo(i) < n.ChildHi(i) <= n.hi
  {
  }

  /** The slot chosen for k is the one whose interval holds k, and no other slot is. */
  lemma SearchFindsSlot<C>(n: Node<C>, k: Key, i: nat)
    requires NodeOk(n) && n.Inner? && n.Covers(k) && i <= |n.keys|
    ensures i == LowerBound(n.keys, k) <==>
            (k == 0 && n.ChildLo(i) == 0) || n.ChildLo(i) < k <= n.ChildHi(i)
  {
    var p := LowerBound(n.keys, k);
    if p < i {
      assert p <= i - 1;
      assert n.keys[p] <= n.keys[i - 1];
    } else if i < p {
      assert n.keys[i] < k;
    }
  }

  /** Different slots of one page have disjoint intervals. */
  lemma SlotsDisjoint<C>(n: Node<C>, i: nat, j: nat)
    requires NodeOk(n) && n.Inner? && i < j <= |n.keys|
    ensures n.ChildHi(i) <= n.ChildLo(j)
  {
    if i < j - 1 {
      assert n.keys[i] < n.keys[j - 1];
    }
  }

  /** What a split must give: two proper pages with room, and a separator strictly inside. */
  ghost predicate Splits<C>(n: Node<C>, h: Halves<C>) {
    && NodeOk(h.left) && NodeOk(h.right) && !h.left.Full() && !h.right.Full()
    && h.left.Level() == n.Level() == h.right.Level()
    && h.left.lo == n.lo && h.left.hi == h.sep == h.right.lo && h.right.hi == n.hi
    && n.lo < h.sep < n.hi
    && h.left.Inner? == h.right.Inner? == n.Inner?
    && (n.Inner? ==> |h.left.keys| >= INNER_MIN && |h.right.keys| >= INNER_MIN)
  }

  lemma SplitLeafOk<C>(n: Node<C>)
    requires NodeOk(n) && n.Full() && n.Leaf?
    ensures Splits(n, SplitLeaf(n))
  {
    var c := |n.entries| / 2;
    var ks := Keys(n.entries);
    assert ks[0] < ks[c - 1] < ks[c];
    assert n.Covers(n.entries[c].key) && n.Covers(n.entries[0].key);
    assert forall i | 0 <= i < c :: ks[i] <= ks[c - 1];
    assert forall i | c <= i < |ks| :: ks[c - 1] < ks[i];
  }

  lemma SplitInnerOk<C>(n: Node<C>)
    requires NodeOk(n) && n.Full() && n.Inner?
    ensures Splits(n, SplitInner(n))
  {
    var c := |n.keys| - (|n.keys| - |n.keys| / 2) - 1;
    assert forall i | 0 <= i < c :: n.keys[i] < n.keys[c];
    assert forall i | c < i < |n.keys| :: n.keys[c] < n.keys[i];
  }

  /** A full page splits into two proper pages with a separator strictly inside: of a leaf's 59 entries
      30 move, of an inner page's 59 keys one goes up and 30 move. */
  lemma SplitOk<C>(n: Node<C>)
    requires NodeOk(n) && n.Full()
    ensures Splits(n, Split(n))
    ensures var h := Split(n);
            if n.Leaf? then |h.left.entries| == 29 && |h.right.entries| == 30
            else |h.left.keys| == 28 && |h.right.keys| == 30 && |h.left.children| == 29 && |h.right.children| == 31
  {
    if n.Leaf? {
      SplitLeafOk(n);
    } else {
      SplitInnerOk(n);
    }
  }

  /** Split loses nothing: left ++ separator ++ right is the page that was split. */
  lemma SplitIsPartition<C>(n: Node<C>)
    requires NodeOk(n) && n.Full()
    ensures var h := Split(n);
            if n.Leaf? then h.left.entries + h.right.entries == n.entries
            else h.left.keys + [h.sep] + h.right.keys == n.keys
                 && h.left.children + h.right.children == n.children
  {
  }

  /** Of any page that can be split the smaller half stays, less the key that goes up from an inner page;
      a leaf's separator is the last key that stays. */
  lemma SplitSizes<C>(n: Node<C>)
    requires if n.Leaf? then |n.entries| >= 2 else |n.keys| >= 2 && |n.children| == |n.keys| + 1
    ensures var h := Split(n);
            if n.Leaf?
            then 0 <= |h.right.entries| - |h.left.entries| <= 1 && |h.left.entries| + |h.right.entries| == |n.entries|
                 && |h.left.entries| > 0 && h.sep == h.left.entries[|h.left.entries| - 1].key
            else 1 <= |h.right.keys| - |h.left.keys| <= 2 && |h.left.keys| + 1 + |h.right.keys| == |n.keys|
                 && |h.left.children| == |h.left.keys| + 1
  {
  }

  /** Where child j of the page after InnerInsert at p was before; p + 1 is the new child. */
  function OldSlot(p: nat, j: nat): nat
    requires j != p + 1
  {
    if j <= p then j else j - 1
  }

  lemma SeparatorPlace<C>(n: Node<C>, p: nat, sep: Key)
    requires NodeOk(n) && n.Inner? && p <= |n.keys|
    requires n.ChildLo(p) < sep < n.ChildHi(p)
    ensures LowerBound(n.keys, sep) == p
    ensures forall i | 0 <= i < p :: n.keys[i] < sep
    ensures forall i | p <= i < |n.keys| :: sep < n.keys[i]
  {
    forall i | 0 <= i < p ensures n.keys[i] < sep {
      assert n.keys[i] <= n.keys[p - 1];
    }
    forall i | p <= i < |n.keys| ensures sep < n.keys[i] {
      assert n.keys[p] <= n.keys[i];
    }
    LowerBoundIs(n.keys, sep, p);
  }

  lemma InsertKeysOk<C>(n: Node<C>, p: nat, sep: Key, child: C)
    requires NodeOk(n) && n.Inner? && !n.Full() && p <= |n.keys|
    requires n.ChildLo(p) < sep < n.ChildHi(p)
    ensures LowerBound(n.keys, sep) == p
    ensures NodeOk(InnerInsert(n, sep, child))
  {
    SeparatorPlace(n, p, sep);
    ChildIntervalProper(n, p);
    PlaceKey(n.keys, sep, p);
    var m := InnerInsert(n, sep, child);
    forall i | 0 <= i < |m.keys| ensures m.lo < m.keys[i] < m.hi {
      if i != p {
        assert m.keys[i] == n.keys[if i < p then i else i - 1];
      }
    }
  }

  /** Inserting a separator strictly inside slot p cuts that slot in two. */
  lemma InnerInsertOk<C>(n: Node<C>, p: nat, sep: Key, child: C)
    requires NodeOk(n) && n.Inner? && !n.Full() && p <= |n.keys|
    requires n.ChildLo(p) < sep < n.ChildHi(p)
    ensures LowerBound(n.keys, sep) == p
    ensures var m := InnerInsert(n, sep, child);
            && NodeOk(m) && m.level == n.level && m.lo == n.lo && m.hi == n.hi
            && |m.keys| == |n.keys| + 1
            && m.children[p + 1] == child && m.children[p] == n.children[p]
            && m.ChildLo(p) == n.ChildLo(p) && m.ChildHi(p) == sep
            && m.ChildLo(p + 1) == sep && m.ChildHi(p + 1) == n.ChildHi(p)
  {
    InsertKeysOk(n, p, sep, child);
    var m := InnerInsert(n, sep, child);
    assert m.keys[p] == sep;
    assert p > 0 ==> m.keys[p - 1] == n.keys[p - 1];
    assert p < |n.keys| ==> m.keys[p + 1] == n.keys[p];
  }

  /** ... and moves no other. */
  lemma InnerInsertSlot<C>(n: Node<C>, p: nat, sep: Key, child: C, j: nat)
    requires NodeOk(n) && n.Inner? && !n.Full() && p <= |n.keys|
    requires LowerBound(n.keys, sep) == p
    requires j <= |n.keys| + 1 && j != p && j != p + 1
    ensures var m, o := InnerInsert(n, sep, child), OldSlot(p, j);
            && m.children[j] == n.children[o] && m.ChildLo(j) == n.ChildLo(o) && m.ChildHi(j) == n.ChildHi(o)
  {
    hide LowerBound;
    var m := InnerInsert(n, sep, child);
    assert forall i | 0 <= i < p :: m.keys[i] == n.keys[i];
    assert forall i | p < i < |m.keys| :: m.keys[i] == n.keys[i - 1];
  }
}
