/** The page layouts of include/cache/BtreeNode.h, changed in place. Every method is proved
    against the function of Node.dfy, SplitSteps.dfy or Word.dfy that states what it computes. */
module BtreeNode {
  import opened Types
  import opened Node
  import opened Word
  import opened SplitSteps

  // --- Shifting parts of an array ---

  /** memmove of a[from..to] one place up. */
  method ShiftUp<T>(a: array<T>, from: nat, to: nat)
    requires from <= to < a.Length
    modifies a
    ensures a[..] == old(a[..from]) + old(a[from..from + 1]) + old(a[from..to]) + old(a[to + 1..])
  {
    forall i | from < i <= to {
      a[i] := a[i - 1];
    }
  }

  /** memmove of a[from..to] one place down. */
  method ShiftDown<T>(a: array<T>, from: nat, to: nat)
    requires 0 < from <= to <= a.Length
    modifies a
    ensures a[..] == old(a[..from - 1]) + old(a[from..to]) + old(a[to - 1..])
  {
    forall i | from <= i < to {
      a[i - 1] := a[i];
    }
  }

  /** memcpy of n elements of a from index at to the front of b. */
  method CopyOut<T>(a: array<T>, at: nat, b: array<T>, n: nat)
    requires a != b && at + n <= a.Length && n <= b.Length
    modifies b
    ensures b[..n] == a[at..at + n] && b[n..] == old(b[n..])
  {
    forall i | 0 <= i < n {
      b[i] := a[at + i];
    }
  }

  lemma SliceOfPrefix<T>(xs: seq<T>, n: nat, from: nat, to: nat)
    requires from <= to <= n <= |xs|
    ensures xs[from..to] == xs[..n][from..to]
  {
  }

  /** Room made for one element. */
  lemma Opened<T>(xs: seq<T>, ys: seq<T>, n: nat, p: nat, x: T)
    requires p <= n < |xs|
    requires ys == xs[..p] + xs[p..p + 1] + xs[p..n] + xs[n + 1..]
    ensures |ys| == |xs| && ys[p := x][..n + 1] == xs[..n][..p] + [x] + xs[..n][p..]
  {
  }

  /** One element put into the first n of a, at place p. */
  method PutIn<T>(a: array<T>, n: nat, p: nat, x: T)
    requires p <= n < a.Length
    modifies a
    ensures a[..n + 1] == old(a[..n])[..p] + [x] + old(a[..n])[p..]
    ensures a[n + 1..] == old(a[n + 1..])
  {
    ghost var xs := a[..];
    ShiftUp(a, p, n);
    Opened(xs, a[..], n, p, x);
    assert a[n + 1..] == xs[n + 1..];
    ghost var ys := a[..];
    a[p] := x;
    assert a[..] == ys[p := x];
    assert a[..n + 1] == a[..][..n + 1] && a[n + 1..] == ys[n + 1..];
    assert xs[..n] == old(a[..n]);
  }

  /** The same when one element more is moved along, as the program does with the keys of an inner page. */
  method PutWithNext<T>(a: array<T>, n: nat, p: nat, x: T)
    requires p <= n && n + 1 < a.Length
    modifies a
    ensures a[..n + 1] == old(a[..n])[..p] + [x] + old(a[..n])[p..]
  {
    ghost var xs := a[..];
    PutIn(a, n + 1, p, x);
    assert a[..n + 2] == a[..][..n + 2] && a[..n + 1] == a[..][..n + 1];
    assert xs[..n + 1] == old(a[..n + 1]) && xs[..n] == old(a[..n]);
    NextDropped(xs, a[..], n, p, x);
  }

  lemma NextDropped<T>(xs: seq<T>, ys: seq<T>, n: nat, p: nat, x: T)
    requires p <= n < |xs| && n + 2 <= |ys| && ys[..n + 2] == xs[..n + 1][..p] + [x] + xs[..n + 1][p..]
    ensures ys[..n + 1] == xs[..n][..p] + [x] + xs[..n][p..]
  {
    assert ys[..n + 1] == ys[..n + 2][..n + 1];
  }

  lemma Closed<T>(xs: seq<T>, ys: seq<T>, n: nat, p: nat)
    requires p < n <= |xs|
    requires ys == xs[..p] + xs[p + 1..n] + xs[n - 1..]
    ensures |ys| == |xs| && ys[..n - 1] == xs[..n][..p] + xs[..n][p + 1..]
  {
  }

  /** The element at place p taken out of the first n of a. */
  method TakeOut<T>(a: array<T>, n: nat, p: nat)
    requires p < n <= a.Length
    modifies a
    ensures a[..n - 1] == old(a[..n])[..p] + old(a[..n])[p + 1..]
  {
    ghost var xs := a[..];
    ShiftDown(a, p + 1, n);
    Closed(xs, a[..], n, p);
    assert xs[..n] == old(a[..n]);
    assert a[..n - 1] == a[..][..n - 1];
  }

  // --- Leaves ---

  class BTreeLeaf {
    const data: array<Entry>
    var count: nat
    var minLimit: Key
    var maxLimit: Key
    var dirty: bool

    ghost predicate Valid()
      reads this
    {
      data.Length == LEAF_CAPACITY && count <= LEAF_CAPACITY
    }

    /** The page this memory holds. */
    ghost function View(): Node<Slot>
      reads this, data
      requires Valid()
    {
      Leaf(minLimit, maxLimit, data[..count])
    }

    ghost predicate Ordered()
      reads this, data
      requires Valid()
    {
      Sorted(Keys(View().entries))
    }

    constructor (blank: Entry)
      ensures Valid() && fresh(data) && dirty && View() == Leaf(0, KEY_MAX, [])
    {
      data := new Entry[LEAF_CAPACITY](_ => blank);
      count := 0;
      minLimit, maxLimit := 0, KEY_MAX;
      dirty := true;
    }

    /** lowerBound: binary search. */
    method Search(k: Key) returns (pos: nat)
      requires Valid() && Ordered()
      ensures pos == LowerBound(Keys(View().entries), k)
      ensures pos <= count
    {
      ghost var ks := Keys(View().entries);
      var lower, upper := 0, count;
      while lower < upper
        invariant lower <= upper <= count
        invariant forall i | 0 <= i < lower :: ks[i] < k
        invariant upper < count ==> k <= ks[upper]
      {
        var mid := (upper - lower) / 2 + lower;
        assert data[mid].key == ks[mid];
        if k == data[mid].key {
          LowerBoundIs(ks, k, mid);
          return mid;
        }
        if k > data[mid].key {
          lower := mid + 1;
        } else {
          upper := mid;
        }
      }
      LowerBoundIs(ks, k, lower);
      return lower;
    }

    method Find(k: Key) returns (v: Option<Value>)
      requires Valid() && Ordered()
      ensures v == LeafFind(View().entries, k)
    {
      var pos := Search(k);
      if pos < count && data[pos].key == k {
        return Some(data[pos].value);
      }
      return None;
    }

    /** rangeScan into the caller's buffer, which must hold what is copied: at most num entries. */
    method RangeScan(k: Key, num: nat, buffer: array<Entry>) returns (copied: nat)
      requires Valid() && Ordered() && buffer != data && |LeafScan(View().entries, k, num)| <= buffer.Length
      modifies buffer
      ensures copied <= num && copied <= buffer.Length && buffer[..copied] == LeafScan(old(View()).entries, k, num)
      ensures buffer[copied..] == old(buffer[copied..])
    {
      hide LowerBound;
      var pos := Search(k);
      if pos < count && data[pos].key == k {
        copied := if count - pos <= num then count - pos else num;
        SliceOfPrefix(data[..], count, pos, pos + copied);
        assert data[pos..pos + copied] == data[..][pos..pos + copied] && data[..count] == data[..][..count];
        CopyOut(data, pos, buffer, copied);
        return;
      }
      return 0;
    }

    /** insert: true for a new key, false when the value was replaced or there was no room. */
    method Insert(k: Key, v: Value) returns (inserted: bool)
      requires Valid() && Ordered()
      modifies this, data
      ensures Valid() && dirty && minLimit == old(minLimit) && maxLimit == old(maxLimit)
      ensures var es := old(View()).entries;
              && inserted == (LeafFind(es, k).None? && |es| < LEAF_CAPACITY)
              && View().entries == if LeafFind(es, k).None? && |es| == LEAF_CAPACITY then es else LeafInsert(es, k, v)
    {
      dirty := true;
      ghost var es := View().entries;
      var pos := 0;
      if count > 0 {
        pos := Search(k);
        if pos < count && data[pos].key == k {
          data[pos] := Entry(k, v);
          assert data[..count] == es[pos := Entry(k, v)];
          return false;
        }
        if count >= LEAF_CAPACITY {
          return false;
        }
        PutIn(data, count, pos, Entry(k, v));
      } else {
        data[0] := Entry(k, v);
        assert data[..1] == [Entry(k, v)];
      }
      count := count + 1;
      return true;
    }

    method Remove(k: Key) returns (removed: bool)
      requires Valid() && Ordered()
      modifies this, data
      ensures Valid() && minLimit == old(minLimit) && maxLimit == old(maxLimit) && dirty == (old(dirty) || removed)
      ensures removed == LeafFind(old(View()).entries, k).Some?
      ensures View().entries == LeafRemove(old(View()).entries, k)
    {
      hide LowerBound;
      ghost var es := View().entries;
      if count == 0 {
        return false;
      }
      var pos := Search(k);
      if pos < count && data[pos].key == k {
        dirty := true;
        TakeOut(data, count, pos);
        count := count - 1;
        return true;
      }
      return false;
    }

    method Update(k: Key, v: Value) returns (updated: bool)
      requires Valid() && Ordered()
      modifies this, data
      ensures Valid() && minLimit == old(minLimit) && maxLimit == old(maxLimit) && dirty == (old(dirty) || updated)
      ensures updated == LeafFind(old(View()).entries, k).Some?
      ensures View().entries == LeafUpdate(old(View()).entries, k, v)
    {
      ghost var es := View().entries;
      var pos := Search(k);
      if pos < count && data[pos].key == k {
        dirty := true;
        data[pos] := Entry(k, v);
        assert data[..count] == es[pos := Entry(k, v)];
        return true;
      }
      return false;
    }

    /** split: the upper half moves to newLeaf, and both pages get their new limits. */
    method Halve(newLeaf: BTreeLeaf) returns (sep: Key)
      requires Valid() && newLeaf.Valid() && newLeaf != this && newLeaf.data != data && 2 <= count
      modifies this, newLeaf, newLeaf.data
      ensures Valid() && newLeaf.Valid() && dirty
      ensures Halves(View(), sep, newLeaf.View()) == Split(old(View()))
      ensures newLeaf.count == old(count) - old(count) / 2 && count == old(count) / 2
      ensures sep == old(data[count / 2 - 1].key)
    {
      ghost var es := data[..count];
      newLeaf.count := count - count / 2;
      count := count - newLeaf.count;
      CopyOut(data, count, newLeaf.data, newLeaf.count);
      assert newLeaf.data[..newLeaf.count] == es[count..];
      sep := data[count - 1].key;
      newLeaf.minLimit := sep;
      newLeaf.maxLimit := maxLimit;
      maxLimit := sep;
      dirty := true;
      assert data[..count] == es[..count];
    }
  }

  // --- The swizzle bitmap ---

  lemma SetBit(w: Word, i: nat)
    requires i < BITS
    ensures Bits(Or(w, One(i))) == Bits(w) + {i}
    ensures Bits(And(w, Not(One(i)))) == Bits(w) - {i}
    ensures And(w, One(i)) != ZERO <==> i in Bits(w)
  {
    assert And(w, One(i))[i] == w[i];
    if i !in Bits(w) { assert And(w, One(i)) == ZERO; }
  }

  /** The two masks of split part the bits as they part the children. */
  lemma SplitBits(w: Word, n: nat)
    requires n <= BITS
    ensures Bits(And(w, LowMask(n))) == LowBits(Bits(w), n)
    ensures Bits(Shr(w, n)) == HighBits(Bits(w), n)
  {
    forall j: nat ensures j in Bits(Shr(w, n)) <==> j in HighBits(Bits(w), n) {
      assert j < BITS ==> (HighBit(Bits(w), n, j) <==> j + n < BITS && w[j + n]);
    }
  }

  /** The shifts of insert move the bits above p up by one, as the children move. */
  lemma InsertBits(w: Word, p: nat, tagged: bool)
    requires p + 2 < BITS
    ensures var w' := Or(And(w, LowMask(p + 1)), Shl(Shr(w, p + 1), p + 2));
            && !w'[p + 1]
            && Bits(if tagged then Or(w', One(p + 1)) else w') == Widen(Bits(w), p, tagged)
  {
    var w' := Or(And(w, LowMask(p + 1)), Shl(Shr(w, p + 1), p + 2));
    var r := if tagged then Or(w', One(p + 1)) else w';
    forall j: nat | j < BITS ensures j in Bits(r) <==> WidenBit(Bits(w), p, tagged, j) {
      if j > p + 1 {
        assert Shl(Shr(w, p + 1), p + 2)[j] == Shr(w, p + 1)[j - p - 2] == w[j - 1];
      } else {
        assert !Shl(Shr(w, p + 1), p + 2)[j];
      }
    }
  }

  /** With a slot to spare no bit falls off: each one goes where its child goes. */
  lemma NoBitLost(bits: set<nat>, count: nat, p: nat, tagged: bool)
    requires forall b | b in bits :: b <= count
    requires p <= count && count < INNER_CAPACITY
    ensures forall b | b in bits :: (if b <= p then b else b + 1) in Widen(bits, p, tagged)
    ensures forall j | j in Widen(bits, p, tagged) && j != p + 1 :: OldSlot(p, j) in bits
  {
    forall b | b in bits ensures (if b <= p then b else b + 1) in Widen(bits, p, tagged) {
      assert WidenBit(bits, p, tagged, if b <= p then b else b + 1);
    }
  }

  // --- Inner pages ---

  class BTreeInner {
    const children: array<Slot>
    const keys: array<Key>
    const level: nat
    var count: nat
    var bitmap: Word
    var minLimit: Key
    var maxLimit: Key
    var dirty: bool

    ghost predicate Valid()
      reads this
    {
      children.Length == INNER_SLOTS && keys.Length == INNER_SLOTS && count <= INNER_CAPACITY
    }

    ghost function View(): Node<Slot>
      reads this, children, keys
      requires Valid()
    {
      Inner(level, minLimit, maxLimit, keys[..count], children[..count + 1])
    }

    ghost predicate Ordered()
      reads this, children, keys
      requires Valid()
    {
      Sorted(View().keys)
    }

    constructor (level: nat, blank: Slot)
      ensures Valid() && fresh(children) && fresh(keys) && dirty && this.level == level
      ensures Bits(bitmap) == {} && View() == Inner(level, 0, KEY_MAX, [], [blank])
    {
      this.level := level;
      children := new Slot[INNER_SLOTS](_ => blank);
      keys := new Key[INNER_SLOTS](_ => 0);
      count := 0;
      bitmap := ZERO;
      minLimit, maxLimit := 0, KEY_MAX;
      dirty := true;
    }

    method Search(k: Key) returns (pos: nat)
      requires Valid() && Ordered()
      ensures pos == LowerBound(View().keys, k)
      ensures pos <= count
    {
      ghost var ks := View().keys;
      var lower, upper := 0, count;
      while lower < upper
        invariant lower <= upper <= count
        invariant forall i | 0 <= i < lower :: ks[i] < k
        invariant upper < count ==> k <= ks[upper]
      {
        var mid := (upper - lower) / 2 + lower;
        assert keys[mid] == ks[mid];
        if k == keys[mid] {
          LowerBoundIs(ks, k, mid);
          return mid;
        }
        if k > keys[mid] {
          lower := mid + 1;
        } else {
          upper := mid;
        }
      }
      LowerBoundIs(ks, k, lower);
      return lower;
    }

    /** findIdx: the first slot that holds this word, or -1. */
    method Position(target: Slot) returns (i: int)
      requires Valid()
      ensures i == FindIdx(View().children, target)
    {
      ghost var cs := View().children;
      i := 0;
      while i < count + 1
        invariant 0 <= i <= count + 1 && target !in cs[..i]
      {
        assert children[i] == cs[i];
        if children[i] == target {
          FirstIs(cs, target, i);
          return;
        }
        assert cs[..i + 1] == cs[..i] + [cs[i]];
        i := i + 1;
      }
      assert cs[..i] == cs;
      return -1;
    }

    method SetBitmap(i: nat)
      requires Valid() && i < BITS
      modifies this`bitmap
      ensures Bits(bitmap) == old(Bits(bitmap)) + {i}
    {
      SetBit(bitmap, i);
      bitmap := Or(bitmap, One(i));
    }

    method UnsetBitmap(i: nat)
      requires Valid() && i < BITS
      modifies this`bitmap
      ensures Bits(bitmap) == old(Bits(bitmap)) - {i}
    {
      SetBit(bitmap, i);
      bitmap := And(bitmap, Not(One(i)));
    }

    method TestBitmap(i: nat) returns (b: bool)
      requires Valid() && i < BITS
      ensures b <==> i in Bits(bitmap)
    {
      SetBit(bitmap, i);
      return And(bitmap, One(i)) != ZERO;
    }

    /** closest_set finds the nearest set bit, of two the left one, exactly when that bit is left of
        pos or no larger than count. Past the last bit it looks from bit 63, but answers from pos. */
    method ClosestSet(pos: nat) returns (r: int)
      requires Valid()
      ensures bitmap == ZERO ==> r == -1
      ensures bitmap != ZERO ==>
                var from := if pos < BITS then pos else BITS - 1;
                exists n: nat :: Nearest(Bits(bitmap), from, n)
                                 && (r == n + (pos - from) <==> n < from || n + (pos - from) <= count)
      ensures bitmap != ZERO && pos < BITS && (forall b | b in Bits(bitmap) :: b <= count) ==>
              Nearest(Bits(bitmap), pos, r)
    {
      hide And;
      hide Tzcnt;
      hide Lzcnt;
      if bitmap == ZERO {
        return -1;
      }
      var bitPos := if pos < BITS then pos else BITS - 1;
      var rightSets := And(bitmap, Not(LowMask(bitPos)));
      var leftSets := And(bitmap, LowMask(bitPos));
      var rightGap, leftGap := 64, 64;
      if rightSets != ZERO {
        LowestBit(bitmap, bitPos);
        rightGap := Tzcnt(rightSets) - bitPos;
      } else {
        assert forall i | bitPos <= i < BITS :: !bitmap[i] by { MaskedOut(bitmap, bitPos); }
      }
      if leftSets != ZERO {
        HighestBit(bitmap, bitPos);
        leftGap := bitPos - (63 - Lzcnt(leftSets));
      } else {
        assert forall i | 0 <= i < bitPos :: !bitmap[i] by { MaskedOut(bitmap, bitPos); }
      }
      NearerGap(bitmap, bitPos, rightGap, leftGap);
      if rightGap < leftGap && pos + rightGap < count + 1 {
        return pos + rightGap;
      }
      return pos - leftGap;
    }

    /** insert: separator, child and bit go in at one place; the program's assertion holds. */
    method Insert(k: Key, child: Slot)
      requires Valid() && Ordered() && count < INNER_CAPACITY
      modifies this, children, keys
      ensures Valid() && dirty
      ensures View() == InnerInsert(old(View()), k, child)
      ensures Bits(bitmap) == Widen(old(Bits(bitmap)), LowerBound(old(View()).keys, k), child.Tagged?)
    {
      hide Bits;
      hide Widen;
      hide Shl;
      hide Shr;
      hide And;
      hide Or;
      hide LowerBound;
      assert count < INNER_SLOTS - 1;
      ghost var n := View();
      var pos := Search(k);
      PutWithNext(keys, count, pos, k);
      PutChild(pos, child);
      WidenBitmap(pos, child.Tagged?);
      count := count + 1;
      dirty := true;
    }

    /** The program opens the slot at pos for the child and then swaps it behind the one it was cut from. */
    method PutChild(pos: nat, child: Slot)
      requires children.Length == INNER_SLOTS && pos <= count < INNER_CAPACITY
      modifies children
      ensures children[..count + 2] == old(children[..count + 1])[..pos + 1] + [child]
                                       + old(children[..count + 1])[pos + 1..]
    {
      assert count < INNER_SLOTS - 1;
      ghost var was := children[..count + 1];
      PutIn(children, count + 1, pos, child);
      ghost var cs := children[..count + 2];
      children[pos], children[pos + 1] := children[pos + 1], children[pos];
      Swapped(was, cs, children[..count + 2], pos, child);
    }

    /** The bits above pos move up by one, and bit pos + 1 says whether the new child is swizzled. */
    method WidenBitmap(pos: nat, tagged: bool)
      requires pos < INNER_CAPACITY
      modifies this`bitmap
      ensures Bits(bitmap) == Widen(old(Bits(bitmap)), pos, tagged)
    {
      InsertBits(bitmap, pos, tagged);
      var upperPart := Shl(Shr(bitmap, pos + 1), pos + 2);
      bitmap := Or(And(bitmap, LowMask(pos + 1)), upperPart);
      if tagged {
        bitmap := Or(bitmap, One(pos + 1));
      }
    }

    /** split: keys, children and bits above the middle key move to newInner; the middle key goes up. */
    method Halve(newInner: BTreeInner) returns (sep: Key)
      requires Valid() && newInner.Valid() && newInner != this && newInner.level == level && 2 <= count
      requires newInner.keys != keys && newInner.children != children
      modifies this, newInner, newInner.keys, newInner.children
      ensures Valid() && newInner.Valid() && dirty
      ensures Halves(View(), sep, newInner.View()) == Split(old(View()))
      ensures Bits(bitmap) == LowBits(old(Bits(bitmap)), |View().children|)
      ensures Bits(newInner.bitmap) == HighBits(old(Bits(bitmap)), |View().children|)
      ensures newInner.count == old(count) - old(count) / 2 && count == old(count) / 2 - 1
      ensures sep == old(keys[count / 2 - 1])
    {
      hide Bits;
      hide LowBits;
      hide HighBits;
      hide Split;
      sep := DivideNode(newInner);
      DivideBitmap(newInner);
      dirty := true;
    }

    /** Counts, keys, children and limits of split. */
    method DivideNode(newInner: BTreeInner) returns (sep: Key)
      requires Valid() && newInner.Valid() && newInner != this && newInner.level == level && 2 <= count
      requires newInner.keys != keys && newInner.children != children
      modifies this`count, this`maxLimit, newInner`count, newInner`minLimit, newInner`maxLimit
      modifies newInner.keys, newInner.children
      ensures Valid() && newInner.Valid() && count < old(count)
      ensures Halves(View(), sep, newInner.View()) == Split(old(View())) && |View().children| == count + 1
      ensures newInner.count == old(count) - old(count) / 2 && count == old(count) / 2 - 1
      ensures sep == old(keys[count / 2 - 1])
    {
      ghost var n := View();
      newInner.count := count - count / 2;
      count := count - newInner.count - 1;
      sep := keys[count];
      assert sep == n.keys[count];
      hide Split, SplitInner;
      MoveTail(newInner, n);
      newInner.minLimit := sep;
      newInner.maxLimit := maxLimit;
      maxLimit := sep;
    }

    /** The bits go where their children go: the ones above count move to newInner. */
    method DivideBitmap(newInner: BTreeInner)
      requires newInner != this && count < INNER_CAPACITY
      modifies this`bitmap, newInner`bitmap
      ensures Bits(bitmap) == LowBits(old(Bits(bitmap)), count + 1)
      ensures Bits(newInner.bitmap) == HighBits(old(Bits(bitmap)), count + 1)
    {
      SplitBits(bitmap, count + 1);
      newInner.bitmap := Shr(bitmap, count + 1);
      bitmap := And(bitmap, LowMask(count + 1));
    }

    /** The copying part of split. */
    method MoveTail(newInner: BTreeInner, ghost n: Node<Slot>)
      requires Valid() && newInner.Valid() && newInner != this && newInner.keys != keys && newInner.children != children
      requires n.Inner? && |n.keys| == count + 1 + newInner.count && |n.keys| <= INNER_CAPACITY
      requires n.keys == keys[..|n.keys|] && n.children == children[..|n.keys| + 1]
      modifies newInner.keys, newInner.children
      ensures newInner.View().keys == n.keys[count + 1..] && newInner.View().children == n.children[count + 1..]
      ensures View().keys == n.keys[..count] && View().children == n.children[..count + 1]
    {
      var at, m := count + 1, newInner.count;
      CopyOut(keys, at, newInner.keys, m + 1);
      Moved(keys[..], newInner.keys[..], n.keys, at, m, m + 1);
      CopyOut(children, at, newInner.children, m + 1);
      Moved(children[..], newInner.children[..], n.children, at, m + 1, m + 1);
      assert keys[..count] == n.keys[..count] && children[..at] == n.children[..at];
    }
  }

  /** Of k elements copied from place at on, the first m are the rest of n. */
  lemma Moved<T>(xs: seq<T>, ys: seq<T>, n: seq<T>, at: nat, m: nat, k: nat)
    requires m <= k <= |ys| && at + k <= |xs| && ys[..k] == xs[at..at + k]
    requires |n| == at + m && n == xs[..|n|]
    ensures ys[..m] == n[at..]
  {
    assert ys[..m] == ys[..k][..m];
  }

  lemma {:induction false} FirstIs(cs: seq<Slot>, target: Slot, i: nat)
    requires i < |cs| && cs[i] == target && target !in cs[..i]
    ensures FindIdx(cs, target) == i
  {
    var j := FindIdx(cs, target);
    assert cs[i] in cs;
    forall x | 0 <= x < i ensures cs[x] != target {
      assert cs[x] in cs[..i];
    }
    forall x | 0 <= x < j ensures cs[x] != target {
      assert cs[x] in cs[..j];
    }
  }

  /** Putting the child before the old one and swapping the two is putting it after. */
  lemma Swapped(cs: seq<Slot>, put: seq<Slot>, swapped: seq<Slot>, p: nat, child: Slot)
    requires p < |cs| && put == cs[..p] + [child] + cs[p..]
    requires |swapped| == |put| && swapped == put[p := put[p + 1]][p + 1 := put[p]]
    ensures swapped == cs[..p + 1] + [child] + cs[p + 1..]
  {
  }

  lemma MaskedOut(w: Word, pos: nat)
    requires pos < BITS
    ensures And(w, Not(LowMask(pos))) == ZERO ==> forall i | pos <= i < BITS :: !w[i]
    ensures And(w, LowMask(pos)) == ZERO ==> forall i | 0 <= i < pos :: !w[i]
  {
    assert forall i | pos <= i < BITS :: And(w, Not(LowMask(pos)))[i] == w[i];
    assert forall i | 0 <= i < pos :: And(w, LowMask(pos))[i] == w[i];
  }

  lemma SomeBit(w: Word) returns (i: nat)
    requires w != ZERO
    ensures i < BITS && w[i]
  {
    i :| 0 <= i < BITS && w[i] != ZERO[i];
  }

  lemma LowestBit(w: Word, pos: nat)
    requires pos < BITS && And(w, Not(LowMask(pos))) != ZERO
    ensures var t := Tzcnt(And(w, Not(LowMask(pos))));
            pos <= t < BITS && w[t] && forall i | pos <= i < t :: !w[i]
  {
    var m := And(w, Not(LowMask(pos)));
    var i := SomeBit(m);
    assert forall i | pos <= i < BITS :: m[i] == w[i];
    assert forall i | 0 <= i < pos :: !m[i];
  }

  lemma HighestBit(w: Word, pos: nat)
    requires pos < BITS && And(w, LowMask(pos)) != ZERO
    ensures var t := 63 - Lzcnt(And(w, LowMask(pos)));
            0 <= t < pos && w[t] && forall i | t < i < pos :: !w[i]
  {
    var m := And(w, LowMask(pos));
    var i := SomeBit(m);
    assert forall i | 0 <= i < pos :: m[i] == w[i];
    assert forall i | pos <= i < BITS :: !m[i];
  }

  /** gap is the distance to the nearest bit at pos or above, 64 when there is none. */
  predicate RightGap(w: Word, pos: nat, gap: nat)
    requires pos < BITS
  {
    && (forall i | pos <= i < BITS && i < pos + gap :: !w[i])
    && (gap != 64 ==> pos + gap < BITS && w[pos + gap])
  }

  predicate LeftGap(w: Word, pos: nat, gap: nat)
    requires pos < BITS
  {
    && (forall i | 0 <= i < pos && pos - i < gap :: !w[i])
    && (gap != 64 ==> 0 < gap <= pos && w[pos - gap])
  }

  /** The nearer of the two gaps leads to the nearest bit. */
  lemma NearerGap(w: Word, pos: nat, rightGap: nat, leftGap: nat)
    requires pos < BITS && w != ZERO && RightGap(w, pos, rightGap) && LeftGap(w, pos, leftGap)
    ensures rightGap < leftGap ==> rightGap != 64 && Nearest(Bits(w), pos, pos + rightGap)
    ensures leftGap <= rightGap ==> leftGap <= pos && Nearest(Bits(w), pos, pos - leftGap)
    ensures leftGap != 0
  {
    var i := SomeBit(w);
    assert i in Bits(w);
    forall b | b in Bits(w) ensures if b >= pos then b - pos >= rightGap else pos - b >= leftGap {
    }
  }
}
