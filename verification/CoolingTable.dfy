/** The cooling table (include/tree/HashTable.h): buckets of six packed words, newest first.
    A word holds a 16-bit fingerprint of the address and the 48-bit address of the frame. */
module CoolingTable {
  import opened Types
  import opened CacheState
  import opened CacheSteps

  const NUM_ENTRIES: nat := 6

  /** (hash >> 49) | (1 << 15): the top 15 bits of the hash under a bit that is always set. */
  function Fingerprint(h: Hash): (fp: nat)
    ensures TWO_16 / 2 <= fp < TWO_16
    ensures (fp - 0x8000) * 0x2_0000_0000_0000 <= h < (fp - 0x8000 + 1) * 0x2_0000_0000_0000
  {
    h / (2 * TWO_48) + TWO_16 / 2
  }

  /** (FP << 48) | (page & ADDRESS_HIDE) */
  function Pack(fp: nat, page: FrameId): nat {
    fp * TWO_48 + page % TWO_48
  }

  function PackedFP(w: nat): nat { w / TWO_48 }
  function PackedPage(w: nat): FrameId { w % TWO_48 }

  /** Packing loses nothing of a 48-bit frame address, and fits in 64 bits. */
  lemma PackRoundTrip(fp: nat, page: FrameId)
    requires fp < TWO_16
    ensures Pack(fp, page) < TWO_64
    ensures PackedFP(Pack(fp, page)) == fp
    ensures PackedPage(Pack(fp, page)) == page <==> page < TWO_48
  {
  }

  /** What a bucket's words stand for, newest first. */
  ghost predicate WordsOf(words: seq<nat>, es: seq<CoolEntry>, hash: GlobalAddress -> Hash) {
    && |words| == |es|
    && forall i | 0 <= i < |es| ::
         && es[i].page < TWO_48
         && words[i] == Pack(Fingerprint(hash(es[i].key)), es[i].page)
  }

  /** One cache line: up to six words, packed at the front. */
  class Bucket {
    var count: nat
    const frame: array<nat>

    ghost predicate Valid()
      reads this
    {
      frame.Length == NUM_ENTRIES && count <= NUM_ENTRIES
    }

    ghost function Words(): seq<nat>
      requires Valid()
      reads this, frame
    {
      frame[..count]
    }

    constructor ()
      ensures Valid() && Words() == [] && fresh(frame)
    {
      count := 0;
      frame := new nat[NUM_ENTRIES](_ => 0);
    }

    /** The first entry with this fingerprint and this frame. */
    method MatchValue(fp: nat, page: FrameId) returns (idx: Option<nat>)
      requires Valid()
      ensures idx.Some? ==> idx.value < count && PackedFP(frame[idx.value]) == fp
                            && PackedPage(frame[idx.value]) == page
      ensures forall j | 0 <= j < (if idx.Some? then idx.value else count) ::
                !(PackedFP(frame[j]) == fp && PackedPage(frame[j]) == page)
    {
      var i := 0;
      while i < count
        invariant i <= count
        invariant forall j | 0 <= j < i :: !(PackedFP(frame[j]) == fp && PackedPage(frame[j]) == page)
      {
        if PackedFP(frame[i]) == fp && PackedPage(frame[i]) == page {
          return Some(i);
        }
        i := i + 1;
      }
      return None;
    }

    /** Takes one entry out; the others keep their order. */
    method Remove(idx: nat)
      requires Valid() && idx < count
      modifies this`count, frame
      ensures Valid() && Words() == old(Words())[..idx] + old(Words())[idx + 1..]
    {
      frame[idx] := 0;
      var i := idx;
      while i < count - 1
        invariant idx <= i <= count - 1 && count == old(count)
        invariant forall j | 0 <= j < idx :: frame[j] == old(frame[j])
        invariant forall j | idx <= j < i :: frame[j] == old(frame[j + 1])
        invariant forall j | i < j < count :: frame[j] == old(frame[j])
      {
        frame[i] := frame[i + 1];
        i := i + 1;
      }
      count := count - 1;
    }

    /** Gives up the oldest entry. */
    method EvictLast() returns (page: Option<FrameId>)
      requires Valid()
      modifies this`count
      ensures Valid()
      ensures page.None? <==> old(Words()) == []
      ensures page.None? ==> Words() == []
      ensures page.Some? ==> Words() == old(Words())[..|old(Words())| - 1]
                             && page.value == PackedPage(old(Words())[|old(Words())| - 1])
    {
      if count == 0 {
        return None;
      }
      page := Some(PackedPage(frame[count - 1]));
      count := count - 1;
    }

    /** Puts an entry in front; a full bucket gives up its oldest entry first. */
    method Insert(payload: nat) returns (evicted: Option<FrameId>)
      requires Valid()
      modifies this`count, frame
      ensures Valid()
      ensures evicted.Some? <==> old(count) == NUM_ENTRIES
      ensures evicted.None? ==> Words() == [payload] + old(Words())
      ensures evicted.Some? ==> Words() == [payload] + old(Words())[..NUM_ENTRIES - 1]
                                && evicted.value == PackedPage(old(Words())[NUM_ENTRIES - 1])
    {
      evicted := None;
      if count == NUM_ENTRIES {
        evicted := EvictLast();
      }
      ghost var words := Words();
      var i := count;
      while i > 0
        invariant 0 <= i <= count < NUM_ENTRIES && count == |words|
        invariant forall j | 0 <= j < i :: frame[j] == words[j]
        invariant forall j | i < j <= count :: frame[j] == words[j - 1]
      {
        frame[i] := frame[i - 1];
        i := i - 1;
      }
      frame[0] := payload;
      count := count + 1;
      assert Words() == [payload] + words;
    }
  }

  /** An entry that a search for this key and frame stops at; the word holds a fingerprint only. */
  ghost predicate Bears(e: CoolEntry, hash: GlobalAddress -> Hash, key: GlobalAddress, page: FrameId) {
    Fingerprint(hash(e.key)) == Fingerprint(hash(key)) && e.page == page
  }

  ghost predicate FirstBearing(es: seq<CoolEntry>, hash: GlobalAddress -> Hash, key: GlobalAddress, page: FrameId,
                               k: nat) {
    k < |es| && Bears(es[k], hash, key, page) && forall i | 0 <= i < k :: !Bears(es[i], hash, key, page)
  }

  // --- What the bucket operations do to the entries ---

  lemma WordsInsert(words: seq<nat>, es: seq<CoolEntry>, hash: GlobalAddress -> Hash, e: CoolEntry)
    requires WordsOf(words, es, hash) && e.page < TWO_48
    ensures WordsOf([Pack(Fingerprint(hash(e.key)), e.page)] + words, [e] + es, hash)
  {
  }

  lemma WordsPage(words: seq<nat>, es: seq<CoolEntry>, hash: GlobalAddress -> Hash, i: nat)
    requires WordsOf(words, es, hash) && i < |es|
    ensures PackedPage(words[i]) == es[i].page && PackedFP(words[i]) == Fingerprint(hash(es[i].key))
  {
    PackRoundTrip(Fingerprint(hash(es[i].key)), es[i].page);
  }

  /** A new entry in front of a bucket, and what is left of the old ones. */
  function Filed(es: seq<CoolEntry>, e: CoolEntry): seq<CoolEntry> {
    [e] + (if |es| == NUM_ENTRIES then es[..NUM_ENTRIES - 1] else es)
  }

  class HashTable {
    const buckets: seq<Bucket>
    const hash: GlobalAddress -> Hash
    ghost var cool: seq<seq<CoolEntry>>

    ghost const Parts: set<object>   // the buckets and their words

    ghost predicate BucketIs(b: nat)
      requires b < |buckets|
      reads this, buckets[b], buckets[b].frame
    {
      b < |cool| && buckets[b].Valid() && |cool[b]| <= NUM_ENTRIES && WordsOf(buckets[b].Words(), cool[b], hash)
    }

    ghost predicate Valid()
      reads this, Parts
    {
      && this !in Parts && (forall b | b in buckets :: b in Parts && b.frame in Parts)
      && |buckets| > 0 && |cool| == |buckets|
      && (forall i, j | 0 <= i < j < |buckets| :: buckets[i] != buckets[j] && buckets[i].frame != buckets[j].frame)
      && (forall b {:trigger BucketIs(b)} | 0 <= b < |buckets| :: BucketIs(b))
    }

    constructor (entryNum: nat, hash: GlobalAddress -> Hash)
      requires entryNum > 0
      ensures Valid() && fresh(Parts) && this.hash == hash
      ensures |cool| == (entryNum + NUM_ENTRIES - 1) / NUM_ENTRIES && forall b | 0 <= b < |cool| :: cool[b] == []
    {
      var bucketNum := if entryNum % NUM_ENTRIES == 0 then entryNum / NUM_ENTRIES else entryNum / NUM_ENTRIES + 1;
      var table: seq<Bucket> := [];
      while |table| < bucketNum
        invariant |table| <= bucketNum
        invariant forall i | 0 <= i < |table| :: fresh(table[i]) && fresh(table[i].frame) && table[i].Valid()
                                                 && table[i].Words() == []
        invariant forall i, j | 0 <= i < j < |table| :: table[i] != table[j] && table[i].frame != table[j].frame
      {
        var k := new Bucket();
        table := table + [k];
      }
      this.buckets := table;
      this.hash := hash;
      this.cool := seq(bucketNum, _ => []);
      Parts := (set b: Bucket | b in table :: b as object) + (set b: Bucket | b in table :: b.frame as object);
      new;
      forall b | 0 <= b < |buckets| ensures BucketIs(b) {
      }
    }

    /** get_bucket */
    function BucketIdx(key: GlobalAddress): nat
      requires |buckets| > 0
    {
      hash(key) % |buckets|
    }

    /** The hash dealt out over the buckets. */
    lemma BucketRight(key: GlobalAddress)
      requires |buckets| > 0
      ensures BucketIdx(key) < |buckets| && hash(key) / |buckets| * |buckets| + BucketIdx(key) == hash(key)
    {
    }

    /** Files a frame as the newest of its bucket; a full bucket gives up the one cooled earliest. */
    method Insert(key: GlobalAddress, page: FrameId) returns (evicted: Option<FrameId>)
      requires Valid() && page < TWO_48
      modifies this, Parts
      ensures Valid()
      ensures var b := BucketIdx(key);
              && cool == old(cool)[b := Filed(old(cool)[b], CoolEntry(key, page))]
              && evicted == if |old(cool)[b]| == NUM_ENTRIES then Some(old(cool)[b][NUM_ENTRIES - 1].page) else None
    {
      var b := BucketIdx(key);
      assert BucketIs(b);
      ghost var words, es := buckets[b].Words(), cool[b];
      var payload := Pack(Fingerprint(hash(key)), page);
      evicted := buckets[b].Insert(payload);
      if |es| == NUM_ENTRIES {
        WordsPage(words, es, hash, NUM_ENTRIES - 1);
        WordsInsert(words[..NUM_ENTRIES - 1], es[..NUM_ENTRIES - 1], hash, CoolEntry(key, page));
      } else {
        WordsInsert(words, es, hash, CoolEntry(key, page));
      }
      cool := cool[b := Filed(es, CoolEntry(key, page))];
      forall j | 0 <= j < |buckets| ensures BucketIs(j) {
        assert j != b ==> old(BucketIs(j));
      }
    }

    /** Takes a frame out of its bucket again, the first entry of that frame under the key's fingerprint. */
    method TryPromoteUsingValue(key: GlobalAddress, page: FrameId) returns (ok: bool, ghost k: nat)
      requires Valid()
      modifies this, Parts
      ensures Valid()
      ensures var es := old(cool)[BucketIdx(key)];
              if ok
              then FirstBearing(es, hash, key, page, k) && cool == old(cool)[BucketIdx(key) := es[..k] + es[k + 1..]]
              else cool == old(cool) && forall e | e in es :: !Bears(e, hash, key, page)
    {
      var b := BucketIdx(key);
      assert BucketIs(b);
      ghost var words, es := buckets[b].Words(), cool[b];
      var fp := Fingerprint(hash(key));
      var idx := buckets[b].MatchValue(fp, page);
      ghost var stop := if idx.Some? then idx.value else |es|;
      forall i | 0 <= i < stop ensures !Bears(es[i], hash, key, page) {
        WordsPage(words, es, hash, i);
      }
      if idx.None? {
        return false, 0;
      }
      k := idx.value;
      WordsPage(words, es, hash, k);
      buckets[b].Remove(idx.value);
      cool := cool[b := es[..k] + es[k + 1..]];
      forall j | 0 <= j < |buckets| ensures BucketIs(j) {
        assert j != b ==> old(BucketIs(j));
      }
      return true, k;
    }

    /** Probes up to probingLength buckets from a random one and evicts the oldest entry of the
        first that is not empty. */
    method RandomEvict(probingLength: nat) returns (page: Option<FrameId>, ghost b: nat, ghost start: nat)
      requires Valid()
      modifies this, Parts
      ensures Valid()
      ensures page.None? ==> cool == old(cool) && ProbedEmpty(cool, start, start + probingLength)
      ensures page.Some? ==> ProbedEmpty(old(cool), start, b) && start <= b < start + probingLength
      ensures page.Some? ==> b < |old(cool)| && old(cool)[b] != []
                             && page.value == old(cool)[b][|old(cool)[b]| - 1].page
                             && cool == old(cool)[b := old(cool)[b][..|old(cool)[b]| - 1]]
    {
      var idx: nat :| idx < |buckets|;
      start := idx;
      var target := if |buckets| <= idx + probingLength then |buckets| else idx + probingLength;
      b := 0;
      var i := idx;
      while i < target
        invariant idx <= i <= target || target < idx == i
        invariant Valid() && cool == old(cool) && ProbedEmpty(cool, idx, i)
      {
        assert BucketIs(i);
        ghost var words, es := buckets[i].Words(), cool[i];
        label before:
        page := buckets[i].EvictLast();
        if page.Some? {
          WordsPage(words, es, hash, |es| - 1);
          assert ProbedEmpty(old(cool), idx, i);
          cool := cool[i := es[..|es| - 1]];
          b := i;
          forall j | 0 <= j < |buckets| ensures BucketIs(j) {
            assert j != i ==> old@before(BucketIs(j));
          }
          return;
        }
        forall j | 0 <= j < |buckets| ensures BucketIs(j) {
          assert old@before(BucketIs(j));
        }
        i := i + 1;
      }
      assert ProbedEmpty(cool, idx, idx + probingLength);
      page := None;
    }
  }
}
