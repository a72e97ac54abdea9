/** The page table (include/tree/PageTable.h): a hash table of chained buckets of three
    frames. Clearing a frame leaves its address behind, and an overflow bucket is unlinked
    when its last frame is cleared. A chain is a sequence of buckets, head bucket first. */
module PageTable {
  import opened Types

  const ENTRIES: nat := 3
  const NULL_ID: GlobalAddress := GlobalAddress(0, 0)

  /** buffer_page_ == nullptr is None: the frame is free, whatever address it still bears. */
  datatype PageFrame = PageFrame(pageId: GlobalAddress, page: Option<FrameId>)

  datatype PageBucket = PageBucket(count: nat, frame: seq<PageFrame>)

  type Chain = seq<PageBucket>

  const FREE_FRAME: PageFrame := PageFrame(NULL_ID, None)
  const EMPTY_BUCKET: PageBucket := PageBucket(0, [FREE_FRAME, FREE_FRAME, FREE_FRAME])

  /** Bucket and slot of a frame in its chain. */
  datatype Place = Place(b: nat, i: nat)

  predicate In(c: Chain, p: Place) {
    p.b < |c| && p.i < |c[p.b].frame|
  }

  function At(c: Chain, p: Place): PageFrame
    requires In(c, p)
  {
    c[p.b].frame[p.i]
  }

  predicate Before(p: Place, q: Place) {
    p.b < q.b || (p.b == q.b && p.i < q.i)
  }

  function One(f: PageFrame): nat {
    if f.page.Some? then 1 else 0
  }

  function LiveIn(frame: seq<PageFrame>): nat
    requires |frame| == ENTRIES
  {
    One(frame[0]) + One(frame[1]) + One(frame[2])
  }

  /** count_ is the number of live frames, and only the head bucket may be empty. */
  ghost predicate BucketOk(k: PageBucket, b: nat) {
    |k.frame| == ENTRIES && k.count == LiveIn(k.frame) && (b == 0 || k.count > 0)
  }

  /** p is the one live frame of its key, and no cleared frame before it bears that key. */
  ghost predicate LiveOk(c: Chain, p: Place)
    requires In(c, p)
  {
    At(c, p).page.Some? ==>
      forall q {:trigger In(c, q)} | In(c, q) && At(c, q).pageId == At(c, p).pageId && q != p ::
        At(c, q).page.None? && Before(p, q)
  }

  ghost predicate ChainOk(c: Chain) {
    && |c| > 0
    && (forall b {:trigger BucketOk(c[b], b)} | 0 <= b < |c| :: BucketOk(c[b], b))
    && (forall p {:trigger LiveOk(c, p)} | In(c, p) :: LiveOk(c, p))
  }

  /** The key is mapped to the value somewhere in the chain. */
  ghost predicate Maps(c: Chain, k: GlobalAddress, v: FrameId) {
    exists p :: In(c, p) && At(c, p) == PageFrame(k, Some(v))
  }

  // --- Changing one frame of a chain ---

  /** Frame p gets new contents, and count_ follows. */
  function Put(c: Chain, p: Place, f: PageFrame): Chain
    requires In(c, p) && |c[p.b].frame| == ENTRIES
  {
    var frame := c[p.b].frame[p.i := f];
    c[p.b := PageBucket(LiveIn(frame), frame)]
  }

  lemma PutBuckets(c: Chain, p: Place, f: PageFrame)
    requires ChainOk(c) && In(c, p)
    ensures |c[p.b].frame| == ENTRIES
    ensures var d := Put(c, p, f);
            && |d| == |c| && (forall q :: In(d, q) <==> In(c, q))
            && (forall q | In(c, q) :: At(d, q) == if q == p then f else At(c, q))
            && d[p.b].count == c[p.b].count + One(f) - One(At(c, p))
            && (forall b | 0 <= b < |c| && b != p.b :: d[b] == c[b])
  {
    assert BucketOk(c[p.b], p.b);
  }

  /** Putting a new key in the first free frame. */
  lemma FillOk(c: Chain, p: Place, k: GlobalAddress, v: FrameId)
    requires ChainOk(c) && In(c, p) && At(c, p).page.None?
    requires forall q | In(c, q) && Before(q, p) :: At(c, q).page.Some?
    requires forall q | In(c, q) && At(c, q).pageId == k :: At(c, q).page.None?
    ensures |c[p.b].frame| == ENTRIES
    ensures ChainOk(Put(c, p, PageFrame(k, Some(v))))
  {
    var f := PageFrame(k, Some(v));
    PutBuckets(c, p, f);
    var d := Put(c, p, f);
    forall b | 0 <= b < |d| ensures BucketOk(d[b], b) {
      assert BucketOk(c[b], b);
    }
    forall q | In(d, q) ensures LiveOk(d, q) {
      assert LiveOk(c, q);
    }
  }

  /** Replacing the value of a live frame. */
  lemma ReplaceOk(c: Chain, p: Place, v: FrameId)
    requires ChainOk(c) && In(c, p) && At(c, p).page.Some?
    ensures |c[p.b].frame| == ENTRIES
    ensures ChainOk(Put(c, p, PageFrame(At(c, p).pageId, Some(v))))
  {
    var f := PageFrame(At(c, p).pageId, Some(v));
    PutBuckets(c, p, f);
    var d := Put(c, p, f);
    forall b | 0 <= b < |d| ensures BucketOk(d[b], b) {
      assert BucketOk(c[b], b);
    }
    forall q | In(d, q) ensures LiveOk(d, q) {
      assert LiveOk(c, q) && LiveOk(c, p);
    }
  }

  /** Appending an overflow bucket that holds one new key. */
  function Grow(c: Chain, k: GlobalAddress, v: FrameId): Chain {
    c + [PageBucket(1, [PageFrame(k, Some(v)), FREE_FRAME, FREE_FRAME])]
  }

  lemma GrowOk(c: Chain, k: GlobalAddress, v: FrameId)
    requires ChainOk(c)
    requires forall q | In(c, q) :: At(c, q).page.Some? && At(c, q).pageId != k
    ensures ChainOk(Grow(c, k, v))
    ensures At(Grow(c, k, v), Place(|c|, 0)) == PageFrame(k, Some(v))
    ensures forall q | In(c, q) :: In(Grow(c, k, v), q) && At(Grow(c, k, v), q) == At(c, q)
    ensures forall q | In(Grow(c, k, v), q) && !In(c, q) && q != Place(|c|, 0) :: At(Grow(c, k, v), q).page.None?
  {
    var d := Grow(c, k, v);
    forall b | 0 <= b < |d| ensures BucketOk(d[b], b) {
      assert b < |c| ==> BucketOk(c[b], b);
    }
    forall q | In(d, q) ensures LiveOk(d, q) {
      assert In(c, q) ==> LiveOk(c, q) && At(d, q) == At(c, q);
      forall r | In(d, r) && At(d, r).pageId == At(d, q).pageId && r != q && At(d, q).page.Some?
        ensures At(d, r).page.None? && Before(q, r)
      {
        assert In(c, r) ==> At(d, r) == At(c, r);
      }
    }
  }

  /** Clearing frame p; an overflow bucket that becomes empty leaves the chain. */
  function Clear(c: Chain, p: Place): Chain
    requires In(c, p) && |c[p.b].frame| == ENTRIES
  {
    var d := Put(c, p, PageFrame(At(c, p).pageId, None));
    if d[p.b].count == 0 && p.b > 0 then d[..p.b] + d[p.b + 1..] else d
  }

  /** Where frame q of the chain with bucket b unlinked was before. */
  function Relinked(b: nat, q: Place): Place {
    if q.b < b then q else Place(q.b + 1, q.i)
  }

  lemma UnlinkOk(c: Chain, b: nat)
    requires |c| > 0 && 0 < b < |c| && LiveIn0(c[b])
    requires forall x {:trigger BucketOk(c[x], x)} | 0 <= x < |c| && x != b :: BucketOk(c[x], x)
    requires forall p {:trigger LiveOk(c, p)} | In(c, p) :: LiveOk(c, p)
    ensures var d := c[..b] + c[b + 1..];
            && ChainOk(d)
            && (forall q | In(d, q) :: In(c, Relinked(b, q)) && At(c, Relinked(b, q)) == At(d, q))
            && (forall p | In(c, p) && p.b != b :: exists q :: In(d, q) && Relinked(b, q) == p)
  {
    var d := c[..b] + c[b + 1..];
    forall x | 0 <= x < |d| ensures BucketOk(d[x], x) {
      var o := if x < b then x else x + 1;
      assert BucketOk(c[o], o);
    }
    forall q | In(d, q) ensures LiveOk(d, q) {
      assert LiveOk(c, Relinked(b, q));
      forall r | In(d, r) && At(d, r).pageId == At(d, q).pageId && r != q && At(d, q).page.Some?
        ensures At(d, r).page.None? && Before(q, r)
      {
        assert In(c, Relinked(b, r));
      }
    }
    forall p | In(c, p) && p.b != b ensures exists q :: In(d, q) && Relinked(b, q) == p {
      var q := if p.b < b then p else Place(p.b - 1, p.i);
      assert In(d, q) && Relinked(b, q) == p;
    }
  }

  predicate LiveIn0(k: PageBucket) {
    |k.frame| == ENTRIES && LiveIn(k.frame) == 0
  }

  /** Clearing the live frame of a key removes that key's mapping and no other. */
  lemma ClearOk(c: Chain, p: Place)
    requires ChainOk(c) && In(c, p) && At(c, p).page.Some?
    ensures |c[p.b].frame| == ENTRIES
    ensures ChainOk(Clear(c, p))
    ensures forall k, v :: Maps(Clear(c, p), k, v) <==> Maps(c, k, v) && k != At(c, p).pageId
  {
    var f := PageFrame(At(c, p).pageId, None);
    PutBuckets(c, p, f);
    var d := Put(c, p, f);
    ClearedLive(c, p);
    forall x | 0 <= x < |d| && (x != p.b || d[p.b].count > 0 || p.b == 0) ensures BucketOk(d[x], x) {
      assert BucketOk(c[x], x);
    }
    if d[p.b].count == 0 && p.b > 0 {
      UnlinkOk(d, p.b);
      UnlinkMaps(d, p.b);
    }
  }

  lemma ClearedLive(c: Chain, p: Place)
    requires ChainOk(c) && In(c, p) && At(c, p).page.Some? && |c[p.b].frame| == ENTRIES
    ensures var d := Put(c, p, PageFrame(At(c, p).pageId, None));
            && (forall q {:trigger LiveOk(d, q)} | In(d, q) :: LiveOk(d, q))
            && forall k, v :: Maps(d, k, v) <==> Maps(c, k, v) && k != At(c, p).pageId
  {
    var f := PageFrame(At(c, p).pageId, None);
    PutBuckets(c, p, f);
    var d := Put(c, p, f);
    assert LiveOk(c, p);
    forall q | In(d, q) ensures LiveOk(d, q) {
      assert LiveOk(c, q);
    }
    forall k, v ensures Maps(d, k, v) <==> Maps(c, k, v) && k != At(c, p).pageId {
      if Maps(d, k, v) {
        var q :| In(d, q) && At(d, q) == PageFrame(k, Some(v));
        assert At(c, q) == PageFrame(k, Some(v));
      }
      if Maps(c, k, v) && k != At(c, p).pageId {
        var q :| In(c, q) && At(c, q) == PageFrame(k, Some(v));
        assert At(d, q) == PageFrame(k, Some(v));
      }
    }
  }

  lemma UnlinkMaps(c: Chain, b: nat)
    requires |c| > 0 && 0 < b < |c| && LiveIn0(c[b])
    ensures forall k, v :: Maps(c[..b] + c[b + 1..], k, v) <==> Maps(c, k, v)
  {
    var d := c[..b] + c[b + 1..];
    forall k, v ensures Maps(d, k, v) <==> Maps(c, k, v) {
      if Maps(d, k, v) {
        var q :| In(d, q) && At(d, q) == PageFrame(k, Some(v));
        assert At(c, Relinked(b, q)) == PageFrame(k, Some(v));
      }
      if Maps(c, k, v) {
        var p :| In(c, p) && At(c, p) == PageFrame(k, Some(v));
        assert p.b != b;
        var q := if p.b < b then p else Place(p.b - 1, p.i);
        assert In(d, q) && At(d, q) == PageFrame(k, Some(v));
      }
    }
  }

  // --- What each change does to the mapping ---

  lemma PutMaps(c: Chain, p: Place, f: PageFrame)
    requires ChainOk(c) && In(c, p) && f.page.Some? && |c[p.b].frame| == ENTRIES
    requires At(c, p).page.Some? ==> At(c, p).pageId == f.pageId
    requires At(c, p).page.None? ==> forall q | In(c, q) && At(c, q).pageId == f.pageId :: At(c, q).page.None?
    ensures forall k, v :: Maps(Put(c, p, f), k, v) <==>
              if k == f.pageId then v == f.page.value else Maps(c, k, v)
  {
    PutBuckets(c, p, f);
    var d := Put(c, p, f);
    assert LiveOk(c, p);
    forall k, v ensures Maps(d, k, v) <==> if k == f.pageId then v == f.page.value else Maps(c, k, v) {
      if Maps(d, k, v) {
        var q :| In(d, q) && At(d, q) == PageFrame(k, Some(v));
        assert q != p ==> At(c, q) == PageFrame(k, Some(v));
      }
      if k == f.pageId && v == f.page.value {
        assert At(d, p) == PageFrame(k, Some(v));
      } else if k != f.pageId && Maps(c, k, v) {
        var q :| In(c, q) && At(c, q) == PageFrame(k, Some(v));
        assert At(d, q) == PageFrame(k, Some(v));
      }
    }
  }

  lemma GrowMaps(c: Chain, k0: GlobalAddress, v0: FrameId)
    requires ChainOk(c)
    requires forall q | In(c, q) :: At(c, q).page.Some? && At(c, q).pageId != k0
    ensures forall k, v :: Maps(Grow(c, k0, v0), k, v) <==> if k == k0 then v == v0 else Maps(c, k, v)
  {
    GrowOk(c, k0, v0);
    var d := Grow(c, k0, v0);
    forall k, v ensures Maps(d, k, v) <==> if k == k0 then v == v0 else Maps(c, k, v) {
      if Maps(d, k, v) {
        var q :| In(d, q) && At(d, q) == PageFrame(k, Some(v));
        assert In(c, q) ==> At(c, q) == PageFrame(k, Some(v));
      }
      if k == k0 && v == v0 {
        assert At(d, Place(|c|, 0)) == PageFrame(k, Some(v));
      } else if k != k0 && Maps(c, k, v) {
        var q :| In(c, q) && At(c, q) == PageFrame(k, Some(v));
        assert At(d, q) == PageFrame(k, Some(v));
      }
    }
  }

  /** The first frame of its chain that bears a live key's address is its live frame. */
  lemma FirstBearerIsLive(c: Chain, p: Place, q: Place)
    requires ChainOk(c) && In(c, p) && In(c, q) && At(c, p).page.Some?
    requires At(c, q).pageId == At(c, p).pageId
    ensures q == p || Before(p, q)
  {
    assert LiveOk(c, p);
  }

  // --- The table ---

  /** The chains of table t together store the map m, each key in the chain it hashes to. */
  ghost predicate TableIs(t: seq<Chain>, m: map<GlobalAddress, FrameId>, hash: GlobalAddress -> Hash) {
    && |t| > 0
    && (forall h {:trigger ChainOk(t[h])} | 0 <= h < |t| :: ChainOk(t[h]))
    && forall h, k, v {:trigger Maps(t[h], k, v)} | 0 <= h < |t| ::
         Maps(t[h], k, v) <==> k in m && m[k] == v && hash(k) % |t| == h
  }

  /** m with key k set to v, or removed when v is None. */
  function Set(m: map<GlobalAddress, FrameId>, k: GlobalAddress, v: Option<FrameId>): map<GlobalAddress, FrameId> {
    match v
    case Some(x) => m[k := x]
    case None => m - {k}
  }

  lemma TableSet(t: seq<Chain>, m: map<GlobalAddress, FrameId>, hash: GlobalAddress -> Hash,
                 c: Chain, k0: GlobalAddress, v0: Option<FrameId>)
    requires TableIs(t, m, hash) && ChainOk(c)
    requires forall k, v: FrameId :: Maps(c, k, v) <==> if k == k0 then v0 == Some(v) else Maps(t[hash(k0) % |t|], k, v)
    ensures TableIs(t[hash(k0) % |t| := c], Set(m, k0, v0), hash)
  {
    var h0 := hash(k0) % |t|;
    var t' := t[h0 := c];
    forall h | 0 <= h < |t'| ensures ChainOk(t'[h]) {
      assert h != h0 ==> ChainOk(t[h]);
    }
    forall h, k, v: FrameId | 0 <= h < |t'|
      ensures Maps(t'[h], k, v) <==> k in Set(m, k0, v0) && Set(m, k0, v0)[k] == v && hash(k) % |t'| == h
    {
      if h == h0 {
        assert Maps(c, k, v) <==> if k == k0 then v0 == Some(v) else Maps(t[h0], k, v);
      } else {
        assert Maps(t[h], k, v) <==> k in m && m[k] == v && hash(k) % |t| == h;
      }
    }
  }

  class PageTable {
    const bucketNum: nat
    const hash: GlobalAddress -> Hash
    const table: array<Chain>
    ghost var contents: map<GlobalAddress, FrameId>

    ghost predicate Valid()
      reads this, table
    {
      bucketNum == table.Length && TableIs(table[..], contents, hash)
    }

    constructor (entryNum: nat, hash: GlobalAddress -> Hash)
      requires entryNum > 0
      ensures Valid() && contents == map[] && fresh(table) && this.hash == hash
      ensures table.Length == (entryNum + ENTRIES - 1) / ENTRIES
    {
      var buckets := if entryNum % ENTRIES == 0 then entryNum / ENTRIES else entryNum / ENTRIES + 1;
      bucketNum := buckets;
      this.hash := hash;
      table := new Chain[buckets](_ => [EMPTY_BUCKET]);
      contents := map[];
      new;
      forall h | 0 <= h < table.Length ensures ChainOk(table[h]) && forall k, v :: !Maps(table[h], k, v) {
        var c := table[h];
        assert c == [EMPTY_BUCKET] && BucketOk(c[0], 0);
        assert forall p | In(c, p) :: At(c, p) == FREE_FRAME;
      }
    }

    /** get_bucket */
    function BucketOf(k: GlobalAddress): nat
      requires bucketNum > 0
    {
      hash(k) % bucketNum
    }

    lemma BucketRight(k: GlobalAddress)
      requires bucketNum > 0
      ensures BucketOf(k) < bucketNum && hash(k) / bucketNum * bucketNum + BucketOf(k) == hash(k)
    {
    }

    /** The nested scan that every operation makes: the first frame of the chain that matches. */
    static method Find(c: Chain, matches: PageFrame -> bool) returns (p: Option<Place>)
      requires forall b | 0 <= b < |c| :: |c[b].frame| == ENTRIES
      ensures p.Some? ==> In(c, p.value) && matches(At(c, p.value))
                          && forall q | In(c, q) && Before(q, p.value) :: !matches(At(c, q))
      ensures p.None? ==> forall q | In(c, q) :: !matches(At(c, q))
    {
      var b := 0;
      while b < |c|
        invariant b <= |c|
        invariant forall q | In(c, q) && q.b < b :: !matches(At(c, q))
      {
        var i := 0;
        while i < ENTRIES
          invariant i <= ENTRIES
          invariant forall q | In(c, q) && (q.b < b || (q.b == b && q.i < i)) :: !matches(At(c, q))
        {
          if matches(c[b].frame[i]) {
            assert At(c, Place(b, i)) == c[b].frame[i];
            return Some(Place(b, i));
          }
          i := i + 1;
        }
        b := b + 1;
      }
      return None;
    }

    lemma ChainAt(k: GlobalAddress)
      requires Valid()
      ensures var c := table[BucketOf(k)];
              && ChainOk(c) && (forall b | 0 <= b < |c| :: |c[b].frame| == ENTRIES)
              && forall v :: Maps(c, k, v) <==> k in contents && contents[k] == v
    {
      var h := BucketOf(k);
      var c := table[..][h];
      assert ChainOk(c);
      forall b | 0 <= b < |c| ensures |c[b].frame| == ENTRIES {
        assert BucketOk(c[b], b);
      }
      assert forall v :: Maps(table[..][h], k, v) <==> k in contents && contents[k] == v;
    }

    /** Store a changed chain for key k. */
    method Store(k: GlobalAddress, c: Chain, ghost v: Option<FrameId>)
      requires Valid() && ChainOk(c)
      requires forall x, y: FrameId :: Maps(c, x, y) <==> if x == k then v == Some(y)
               else Maps(table[BucketOf(k)], x, y)
      modifies this`contents, table
      ensures Valid() && contents == Set(old(contents), k, v)
    {
      var h := BucketOf(k);
      TableSet(table[..], contents, hash, c, k, v);
      table[h] := c;
      contents := Set(contents, k, v);
      assert table[..] == old(table[..])[h := c];
    }

    method Get(k: GlobalAddress) returns (page: Option<FrameId>)
      requires Valid()
      ensures page == if k in contents then Some(contents[k]) else None
    {
      ChainAt(k);
      var c := table[BucketOf(k)];
      var p := Find(c, (f: PageFrame) => f.pageId == k && f.page.Some?);
      if p.None? {
        assert k in contents ==> Maps(c, k, contents[k]);
        return None;
      }
      page := At(c, p.value).page;
      assert Maps(c, k, page.value);
    }

    /** The second pass of insert and upsert: the first free frame, or a new overflow bucket. */
    method FillFirstFree(k: GlobalAddress, v: FrameId)
      requires Valid() && k !in contents
      modifies this`contents, table
      ensures Valid() && contents == old(contents)[k := v]
    {
      ChainAt(k);
      var c := table[BucketOf(k)];
      var p := Find(c, (f: PageFrame) => f.page.None?);
      forall q | In(c, q) && At(c, q).pageId == k ensures At(c, q).page.None? {
        if At(c, q).page.Some? { assert Maps(c, k, At(c, q).page.value); }
      }
      if p.Some? {
        FillOk(c, p.value, k, v);
        PutMaps(c, p.value, PageFrame(k, Some(v)));
        Store(k, Put(c, p.value, PageFrame(k, Some(v))), Some(v));
      } else {
        GrowOk(c, k, v);
        GrowMaps(c, k, v);
        Store(k, Grow(c, k, v), Some(v));
      }
    }

    /** Adds a new key; an existing one is left alone and its page is reported. */
    method Insert(k: GlobalAddress, v: FrameId) returns (ok: bool, page: FrameId)
      requires Valid()
      modifies this`contents, table
      ensures Valid() && ok == (k !in old(contents))
      ensures contents == if ok then old(contents)[k := v] else old(contents)
      ensures page == if ok then v else old(contents)[k]
    {
      var cur := Get(k);
      if cur.Some? {
        return false, cur.value;
      }
      FillFirstFree(k, v);
      return true, v;
    }

    /** Adds or replaces; reports whether the key is new and the page it had before. */
    method Upsert(k: GlobalAddress, v: FrameId) returns (ok: bool, was: FrameId)
      requires Valid()
      modifies this`contents, table
      ensures Valid() && contents == old(contents)[k := v]
      ensures ok == (k !in old(contents)) && was == if ok then v else old(contents)[k]
    {
      ChainAt(k);
      var c := table[BucketOf(k)];
      var p := Find(c, (f: PageFrame) => f.pageId == k && f.page.Some?);
      if p.None? {
        assert k in contents ==> Maps(c, k, contents[k]);
        FillFirstFree(k, v);
        return true, v;
      }
      ok, was := false, At(c, p.value).page.value;
      assert Maps(c, k, was);
      ReplaceOk(c, p.value, v);
      PutMaps(c, p.value, PageFrame(k, Some(v)));
      Store(k, Put(c, p.value, PageFrame(k, Some(v))), Some(v));
    }

    /** Removes the pair; a key mapped to another page stays. */
    method Remove(k: GlobalAddress, v: FrameId) returns (ok: bool)
      requires Valid()
      modifies this`contents, table
      ensures Valid() && ok == (k in old(contents) && old(contents)[k] == v)
      ensures contents == if ok then old(contents) - {k} else old(contents)
    {
      ChainAt(k);
      var c := table[BucketOf(k)];
      var p := Find(c, (f: PageFrame) => f == PageFrame(k, Some(v)));
      if p.None? {
        assert k in contents && contents[k] == v ==> Maps(c, k, v);
        return false;
      }
      assert Maps(c, k, v);
      ClearOk(c, p.value);
      Store(k, Clear(c, p.value), None);
      return true;
    }

    /** Key-only removal: clears the first frame bearing the address, live or not. On a live
        key that frame is always the live one. */
    method CheckAndRemove(k: GlobalAddress) returns (ok: bool)
      requires Valid()
      modifies this`contents, table
      ensures Valid() && ok == (k in old(contents)) && contents == old(contents) - {k}
    {
      var cur := Get(k);
      if cur.None? {
        assert contents - {k} == contents;
        return false;
      }
      ChainAt(k);
      var c := table[BucketOf(k)];
      assert Maps(c, k, cur.value);
      ghost var live :| In(c, live) && At(c, live) == PageFrame(k, cur);
      var p := Find(c, (f: PageFrame) => f.pageId == k);
      FirstBearerIsLive(c, live, p.value);
      ClearOk(c, p.value);
      Store(k, Clear(c, p.value), None);
      return true;
    }

    /** Replaces the page of an existing key only. */
    method Update(k: GlobalAddress, v: FrameId) returns (was: Option<FrameId>)
      requires Valid()
      modifies this`contents, table
      ensures Valid() && was == if k in old(contents) then Some(old(contents)[k]) else None
      ensures contents == if was.Some? then old(contents)[k := v] else old(contents)
    {
      ChainAt(k);
      var c := table[BucketOf(k)];
      var p := Find(c, (f: PageFrame) => f.pageId == k && f.page.Some?);
      if p.None? {
        assert k in contents ==> Maps(c, k, contents[k]);
        return None;
      }
      was := At(c, p.value).page;
      assert Maps(c, k, was.value);
      ReplaceOk(c, p.value, v);
      PutMaps(c, p.value, PageFrame(k, Some(v)));
      Store(k, Put(c, p.value, PageFrame(k, Some(v))), Some(v));
    }

    /** Replaces the page of a key only when it is the expected one. */
    method ReadModifyWrite(k: GlobalAddress, v: FrameId, expected: FrameId) returns (ok: bool)
      requires Valid()
      modifies this`contents, table
      ensures Valid() && ok == (k in old(contents) && old(contents)[k] == expected)
      ensures contents == if ok then old(contents)[k := v] else old(contents)
    {
      ChainAt(k);
      var c := table[BucketOf(k)];
      var p := Find(c, (f: PageFrame) => f == PageFrame(k, Some(expected)));
      if p.None? {
        assert k in contents && contents[k] == expected ==> Maps(c, k, expected);
        return false;
      }
      assert Maps(c, k, expected);
      ReplaceOk(c, p.value, v);
      PutMaps(c, p.value, PageFrame(k, Some(v)));
      Store(k, Put(c, p.value, PageFrame(k, Some(v))), Some(v));
      return true;
    }
  }
}
