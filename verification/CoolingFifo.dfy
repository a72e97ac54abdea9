/** A cooling bucket over a whole run: a bounded first-in first-out queue, whatever is promoted
    out of its middle. Every filing gets a number, so that "cooled earliest" can be said. */
module CoolingFifo {
  import opened Types
  import opened CacheState
  import opened CacheSteps
  import opened CoolingTable

  /** What can happen to one bucket: HashTable::insert, an eviction, a promotion of entry idx. */
  datatype Event = File(e: CoolEntry) | Evict | Promote(idx: nat)

  /** filed: all entries ever filed, oldest first. The other fields hold positions in it: now the
      bucket, newest first; out what was evicted, in that order; promoted what was promoted. */
  datatype Trace = Trace(filed: seq<CoolEntry>, now: seq<nat>, out: seq<nat>, promoted: set<nat>)

  const START: Trace := Trace([], [], [], {})

  function Step(t: Trace, ev: Event): Trace {
    match ev
    case File(e) =>
      if |t.now| == NUM_ENTRIES
      then Trace(t.filed + [e], [|t.filed|] + t.now[..NUM_ENTRIES - 1], t.out + [t.now[NUM_ENTRIES - 1]], t.promoted)
      else t.(filed := t.filed + [e], now := [|t.filed|] + t.now)
    case Evict =>
      if t.now == [] then t
      else t.(now := t.now[..|t.now| - 1], out := t.out + [t.now[|t.now| - 1]])
    case Promote(i) =>
      if i < |t.now| then t.(now := t.now[..i] + t.now[i + 1..], promoted := t.promoted + {t.now[i]}) else t
  }

  function RunOf(events: seq<Event>): Trace {
    if events == [] then START else Step(RunOf(events[..|events| - 1]), events[|events| - 1])
  }

  predicate Known(t: Trace) {
    forall i | 0 <= i < |t.now| :: t.now[i] < |t.filed|
  }

  /** The entries in the bucket. */
  function Bucket(t: Trace): seq<CoolEntry>
    requires Known(t)
  {
    seq(|t.now|, i requires 0 <= i < |t.now| => t.filed[t.now[i]])
  }

  /** The bucket is in filing order, evictions happened in filing order, and nothing evicted was
      filed after anything that is still there. */
  ghost predicate InOrder(t: Trace) {
    && |t.now| <= NUM_ENTRIES && Known(t)
    && (forall i, j | 0 <= i < j < |t.now| :: t.now[j] < t.now[i])
    && (forall i, j | 0 <= i < j < |t.out| :: t.out[i] < t.out[j])
    && (forall i | 0 <= i < |t.out| :: t.out[i] < |t.filed|)
    && (forall i, j | 0 <= i < |t.out| && 0 <= j < |t.now| :: t.out[i] < t.now[j])
  }

  /** Every filing is in the bucket, evicted or promoted, and in one of these only. */
  ghost predicate Conserved(t: Trace) {
    && (forall n: nat :: n < |t.filed| <==> n in t.now || n in t.out || n in t.promoted)
    && (forall n | n in t.promoted :: n !in t.now && n !in t.out)
  }

  lemma StepInOrder(t: Trace, ev: Event)
    requires InOrder(t)
    ensures InOrder(Step(t, ev))
  {
    match ev {
      case File(e) =>
        if |t.now| == NUM_ENTRIES {
          EvictInOrder(t);
          FileInOrder(Step(t, Evict), e);
          assert Step(t, File(e)) == Step(Step(t, Evict), File(e));
        } else {
          FileInOrder(t, e);
        }
      case Evict => EvictInOrder(t);
      case Promote(k) =>
        if k < |t.now| {
          PromoteInOrder(t, k);
        }
    }
  }

  lemma FileInOrder(t: Trace, e: CoolEntry)
    requires InOrder(t) && |t.now| < NUM_ENTRIES
    ensures InOrder(Step(t, File(e)))
  {
  }

  lemma EvictInOrder(t: Trace)
    requires InOrder(t)
    ensures InOrder(Step(t, Evict))
  {
  }

  lemma PromoteInOrder(t: Trace, k: nat)
    requires InOrder(t) && k < |t.now|
    ensures InOrder(Step(t, Promote(k)))
  {
    var now' := t.now[..k] + t.now[k + 1..];
    forall i | 0 <= i < |now'| ensures now'[i] == t.now[if i < k then i else i + 1] {
    }
  }

  lemma StepConserved(t: Trace, ev: Event)
    requires InOrder(t) && Conserved(t)
    ensures Conserved(Step(t, ev))
  {
    var t' := Step(t, ev);
    forall n: nat
      ensures n < |t'.filed| <==> n in t'.now || n in t'.out || n in t'.promoted
      ensures n in t'.promoted ==> n !in t'.now && n !in t'.out
    {
      StepPlaces(t, ev, n);
    }
  }

  /** Where filing number n is after one step. */
  ghost predicate Places(t: Trace, t': Trace, filing: bool, n: nat) {
    && (n in t'.now <==> (n in t.now && n !in t'.out && n !in t'.promoted) || (filing && n == |t.filed|))
    && (n in t.out ==> n in t'.out) && (n in t.promoted ==> n in t'.promoted)
    && (n in t'.out ==> n in t.out || n in t.now) && (n in t'.promoted ==> n in t.promoted || n in t.now)
    && (n in t'.promoted ==> n !in t'.out)
  }

  lemma StepPlaces(t: Trace, ev: Event, n: nat)
    requires InOrder(t) && Conserved(t)
    ensures Places(t, Step(t, ev), ev.File?, n)
  {
    match ev {
      case File(e) => FilePlaces(t, e, n);
      case Evict => EvictPlaces(t, n);
      case Promote(k) => PromotePlaces(t, k, n);
    }
  }

  lemma FilePlaces(t: Trace, e: CoolEntry, n: nat)
    requires InOrder(t) && Conserved(t)
    ensures Places(t, Step(t, File(e)), true, n)
  {
    var kept := if |t.now| == NUM_ENTRIES then t.now[..NUM_ENTRIES - 1] else t.now;
    assert n in Step(t, File(e)).now <==> n == |t.filed| || n in kept;
    if |t.now| == NUM_ENTRIES {
      EvictPlaces(t, n);
    }
  }

  lemma EvictPlaces(t: Trace, n: nat)
    requires InOrder(t) && Conserved(t)
    ensures Places(t, Step(t, Evict), false, n)
  {
    if t.now != [] {
      var kept, last := t.now[..|t.now| - 1], t.now[|t.now| - 1];
      assert t.now == kept + [last];
      assert n in t.now <==> n in kept || n == last;
    }
  }

  lemma PromotePlaces(t: Trace, k: nat, n: nat)
    requires InOrder(t) && Conserved(t)
    ensures Places(t, Step(t, Promote(k)), false, n)
  {
    if k < |t.now| {
      assert t.now == t.now[..k] + [t.now[k]] + t.now[k + 1..];
      assert n in t.now <==> n in t.now[..k] || n == t.now[k] || n in t.now[k + 1..];
    }
  }

  /** Over every run: evictions come in filing order, an eviction always gives back the entry
      cooled earliest of those still there, and no entry is lost or given back twice. */
  lemma {:induction false} BucketIsFifo(events: seq<Event>)
    ensures InOrder(RunOf(events)) && Conserved(RunOf(events))
  {
    if events != [] {
      BucketIsFifo(events[..|events| - 1]);
      StepInOrder(RunOf(events[..|events| - 1]), events[|events| - 1]);
      StepConserved(RunOf(events[..|events| - 1]), events[|events| - 1]);
    }
  }

  /** What an eviction gives back was filed before everything it leaves in the bucket. */
  lemma EvictsEarliest(events: seq<Event>)
    ensures var t := RunOf(events);
            t.now != [] ==> forall n | n in t.now :: t.now[|t.now| - 1] <= n
  {
    BucketIsFifo(events);
  }

  lemma FileStep(t: Trace, e: CoolEntry)
    requires Known(t) && |t.now| <= NUM_ENTRIES
    ensures Known(Step(t, File(e))) && Bucket(Step(t, File(e))) == Filed(Bucket(t), e)
  {
    var es', es := Bucket(Step(t, File(e))), Filed(Bucket(t), e);
    forall i | 0 <= i < |es| ensures es'[i] == es[i] {
    }
  }

  lemma EvictStep(t: Trace)
    requires Known(t)
    ensures Known(Step(t, Evict))
    ensures var es := Bucket(t); Bucket(Step(t, Evict)) == if es == [] then es else es[..|es| - 1]
  {
  }

  lemma PromoteStep(t: Trace, k: nat)
    requires Known(t)
    ensures Known(Step(t, Promote(k)))
    ensures var es := Bucket(t); Bucket(Step(t, Promote(k))) == if k < |es| then es[..k] + es[k + 1..] else es
  {
  }

  /** What an event makes of the entries of its bucket. */
  function Acted(es: seq<CoolEntry>, ev: Event): seq<CoolEntry> {
    match ev
    case File(e) => Filed(es, e)
    case Evict => if es == [] then es else es[..|es| - 1]
    case Promote(k) => if k < |es| then es[..k] + es[k + 1..] else es
  }

  lemma BucketStep(t: Trace, ev: Event)
    requires InOrder(t)
    ensures Known(Step(t, ev)) && Bucket(Step(t, ev)) == Acted(Bucket(t), ev)
  {
    match ev {
      case File(e) => FileStep(t, e);
      case Evict => EvictStep(t);
      case Promote(k) => PromoteStep(t, k);
    }
  }

  /** The steps are those of the table: filing, evicting the last word, removing one word. */
  lemma StepsAreTheTables(events: seq<Event>, ev: Event)
    ensures Known(RunOf(events)) && Known(RunOf(events + [ev]))
    ensures Bucket(RunOf(events + [ev])) == Acted(Bucket(RunOf(events)), ev)
  {
    BucketIsFifo(events);
    assert (events + [ev])[..|events|] == events;
    BucketStep(RunOf(events), ev);
  }

  // --- Runs of the table itself ---

  /** insert, random_evict_to_remote and try_promote_using_value */
  datatype TableCall =
    | Cool(key: GlobalAddress, page: FrameId)
    | Recycle(probing: nat)
    | Reheat(key: GlobalAddress, page: FrameId)

  /** What a call came to: the bucket it ended at, what happened there, and the frame given back. */
  datatype Turn = Turn(bucket: nat, event: Option<Event>, back: Option<FrameId>)

  /** The buckets after a turn. */
  function After(cool: seq<seq<CoolEntry>>, turn: Turn): seq<seq<CoolEntry>> {
    if turn.event.Some? && turn.bucket < |cool|
    then cool[turn.bucket := Acted(cool[turn.bucket], turn.event.value)] else cool
  }

  /** What a new table of n buckets holds after these turns. */
  function TableAfter(turns: seq<Turn>, n: nat): (cool: seq<seq<CoolEntry>>)
    ensures |cool| == n
  {
    if turns == [] then seq(n, _ => []) else After(TableAfter(turns[..|turns| - 1], n), turns[|turns| - 1])
  }

  /** The entry that leaves a bucket next. */
  function Oldest(es: seq<CoolEntry>): Option<FrameId> {
    if es == [] then None else Some(es[|es| - 1].page)
  }

  /** What a call may come to on a table that holds cool: only the bucket random_evict_to_remote starts
      at is open. */
  ghost predicate ComesTo(call: TableCall, turn: Turn, cool: seq<seq<CoolEntry>>, hash: GlobalAddress -> Hash) {
    && turn.bucket < |cool|
    && var b, es := turn.bucket, cool[turn.bucket];
    match call
    case Cool(key, page) =>
      && b == hash(key) % |cool| && turn.event == Some(File(CoolEntry(key, page)))
      && turn.back == if |es| == NUM_ENTRIES then Oldest(es) else None
    case Recycle(probing) =>
      if turn.event.None?
      then turn.back == None
           && exists start: nat, stop: nat :: stop == start + probing && ProbedEmpty(cool, start, stop)
      else turn.event.value == Evict && es != [] && turn.back == Oldest(es)
           && exists start: nat :: start <= b < start + probing && ProbedEmpty(cool, start, b)
    case Reheat(key, page) =>
      && b == hash(key) % |cool| && turn.back == None
      && match turn.event
         case None => forall e | e in es :: !Bears(e, hash, key, page)
         case Some(ev) => ev.Promote? && FirstBearing(es, hash, key, page, ev.idx)
  }

  ghost predicate TurnOk(calls: seq<TableCall>, turns: seq<Turn>, i: nat, n: nat, hash: GlobalAddress -> Hash) {
    i < |turns| && i < |calls| && ComesTo(calls[i], turns[i], TableAfter(turns[..i], n), hash)
  }

  /** Each turn is what its call may come to on the table left by the turns before it. */
  ghost predicate TurnsOf(calls: seq<TableCall>, turns: seq<Turn>, n: nat, hash: GlobalAddress -> Hash) {
    |turns| == |calls| && forall i {:trigger TurnOk(calls, turns, i, n, hash)} | 0 <= i < |turns| ::
      TurnOk(calls, turns, i, n, hash)
  }

  /** The events of bucket b, in order. */
  function EventsAt(turns: seq<Turn>, b: nat): seq<Event> {
    if turns == [] then []
    else
      var k := |turns| - 1;
      EventsAt(turns[..k], b)
      + if turns[k].bucket == b && turns[k].event.Some? then [turns[k].event.value] else []
  }

  /** The frames bucket b has given back, in order. */
  function BackFrom(turns: seq<Turn>, b: nat): seq<FrameId> {
    if turns == [] then []
    else
      var k := |turns| - 1;
      BackFrom(turns[..k], b) + if turns[k].bucket == b && turns[k].back.Some? then [turns[k].back.value] else []
  }

  /** What the calls put into bucket b of n, in order. */
  function CooledAt(calls: seq<TableCall>, b: nat, n: nat, hash: GlobalAddress -> Hash): seq<CoolEntry>
    requires n > 0
  {
    if calls == [] then []
    else
      var k := |calls| - 1;
      CooledAt(calls[..k], b, n, hash)
      + if calls[k].Cool? && hash(calls[k].key) % n == b then [CoolEntry(calls[k].key, calls[k].page)] else []
  }

  /** The frames a trace has given back. */
  function GivenBack(t: Trace): seq<FrameId>
    requires forall i | 0 <= i < |t.out| :: t.out[i] < |t.filed|
  {
    seq(|t.out|, i requires 0 <= i < |t.out| => t.filed[t.out[i]].page)
  }

  /** Trace t tells what was put into a bucket, what it holds, and what it has given back. */
  ghost predicate Tells(t: Trace, put: seq<CoolEntry>, es: seq<CoolEntry>, given: seq<FrameId>) {
    InOrder(t) && Conserved(t) && t.filed == put && Bucket(t) == es && GivenBack(t) == given
  }

  /** The frame that leaves bucket es at an event, if one does. */
  function Leaving(es: seq<CoolEntry>, ev: Event): seq<FrameId> {
    if es != [] && (ev.Evict? || (ev.File? && |es| == NUM_ENTRIES)) then [es[|es| - 1].page] else []
  }

  lemma GivenStep(t: Trace, ev: Event)
    requires InOrder(t) && InOrder(Step(t, ev))
    ensures GivenBack(Step(t, ev)) == GivenBack(t) + Leaving(Bucket(t), ev)
  {
  }

  lemma EventTells(t: Trace, put: seq<CoolEntry>, es: seq<CoolEntry>, given: seq<FrameId>, ev: Event)
    requires Tells(t, put, es, given)
    ensures Tells(Step(t, ev), if ev.File? then put + [ev.e] else put, Acted(es, ev), given + Leaving(es, ev))
  {
    hide Conserved, Acted, Leaving;
    StepInOrder(t, ev);
    StepConserved(t, ev);
    BucketStep(t, ev);
    GivenStep(t, ev);
  }

  /** One turn, as bucket b sees it. */
  lemma TurnTells(events: seq<Event>, put: seq<CoolEntry>, given: seq<FrameId>, cool: seq<seq<CoolEntry>>,
                  call: TableCall, turn: Turn, b: nat, hash: GlobalAddress -> Hash)
    requires b < |cool| && ComesTo(call, turn, cool, hash) && Tells(RunOf(events), put, cool[b], given)
    ensures var here := turn.bucket == b;
            Tells(RunOf(events + if here && turn.event.Some? then [turn.event.value] else []),
                  put + if call.Cool? && hash(call.key) % |cool| == b then [CoolEntry(call.key, call.page)] else [],
                  After(cool, turn)[b], given + if here && turn.back.Some? then [turn.back.value] else [])
  {
    if turn.bucket == b && turn.event.Some? {
      assert (events + [turn.event.value])[..|events|] == events;
      EventTells(RunOf(events), put, cool[b], given, turn.event.value);
    } else {
      assert events + [] == events && put + [] == put && given + [] == given;
    }
  }

  lemma NothingTells(calls: seq<TableCall>, b: nat, n: nat, hash: GlobalAddress -> Hash)
    requires b < n && TurnsOf(calls, [], n, hash)
    ensures Tells(RunOf(EventsAt([], b)), CooledAt(calls, b, n, hash), TableAfter([], n)[b], BackFrom([], b))
  {
  }

  /** Over every run of the table each bucket is a queue: put into it is exactly what was cooled under its
      keys, in that order; what has left it by filing or eviction left in that order; and what it holds
      is the rest, less what was promoted. */
  lemma {:induction false} BucketTells(calls: seq<TableCall>, turns: seq<Turn>, b: nat, n: nat,
                                       hash: GlobalAddress -> Hash)
    requires b < n && TurnsOf(calls, turns, n, hash)
    ensures Tells(RunOf(EventsAt(turns, b)), CooledAt(calls, b, n, hash), TableAfter(turns, n)[b], BackFrom(turns, b))
    decreases |turns|
  {
    hide ComesTo, RunOf, Tells;
    if turns == [] {
      NothingTells(calls, b, n, hash);
    } else {
      var k := |turns| - 1;
      EarlierTurns(calls, turns, k, n, hash);
      BucketTells(calls[..k], turns[..k], b, n, hash);
      assert TurnOk(calls, turns, k, n, hash);
      TurnTells(EventsAt(turns[..k], b), CooledAt(calls[..k], b, n, hash), BackFrom(turns[..k], b),
                TableAfter(turns[..k], n), calls[k], turns[k], b, hash);
    }
  }

  lemma EarlierTurns(calls: seq<TableCall>, turns: seq<Turn>, k: nat, n: nat, hash: GlobalAddress -> Hash)
    requires TurnsOf(calls, turns, n, hash) && k <= |turns|
    ensures TurnsOf(calls[..k], turns[..k], n, hash)
  {
    forall i | 0 <= i < k ensures TurnOk(calls[..k], turns[..k], i, n, hash) {
      assert TurnOk(calls, turns, i, n, hash);
      assert turns[..k][..i] == turns[..i];
    }
  }

  /** One call of the table. */
  method Perform(table: HashTable, call: TableCall) returns (back: Option<FrameId>, ghost turn: Turn)
    requires table.Valid() && (call.Cool? ==> call.page < TWO_48)
    modifies table, table.Parts
    ensures table.Valid() && table.cool == After(old(table.cool), turn) && back == turn.back
    ensures ComesTo(call, turn, old(table.cool), table.hash)
  {
    match call {
      case Cool(key, page) => {
        ghost var b := table.BucketIdx(key);
        assert table.BucketIs(b);
        back := table.Insert(key, page);
        turn := Turn(b, Some(File(CoolEntry(key, page))), back);
      }
      case Recycle(probing) => {
        ghost var cool := table.cool;
        ghost var b, start;
        back, b, start := table.RandomEvict(probing);
        ghost var stop := start + probing;
        assert if back.Some? then ProbedEmpty(cool, start, b) else ProbedEmpty(cool, start, stop);
        turn := if back.Some? then Turn(b, Some(Evict), back) else Turn(0, None, None);
      }
      case Reheat(key, page) => {
        ghost var b := table.BucketIdx(key);
        var ok;
        ghost var k;
        ok, k := table.TryPromoteUsingValue(key, page);
        back := None;
        turn := Turn(b, if ok then Some(Promote(k)) else None, None);
      }
    }
  }

  /** Whatever is called on a new table, each answer is one the code may give, and every bucket is such
      a queue of exactly what was cooled under its keys. */
  method RunTable(entryNum: nat, hash: GlobalAddress -> Hash, calls: seq<TableCall>)
    returns (table: HashTable, backs: seq<Option<FrameId>>, ghost turns: seq<Turn>)
    requires entryNum > 0 && forall c | c in calls :: c.Cool? ==> c.page < TWO_48
    ensures table.Valid() && table.hash == hash && |table.cool| == (entryNum + NUM_ENTRIES - 1) / NUM_ENTRIES
    ensures TurnsOf(calls, turns, |table.cool|, hash) && table.cool == TableAfter(turns, |table.cool|)
    ensures |backs| == |calls| && forall i | 0 <= i < |calls| :: backs[i] == turns[i].back
    ensures forall b | 0 <= b < |table.cool| ::
              Tells(RunOf(EventsAt(turns, b)), CooledAt(calls, b, |table.cool|, hash), table.cool[b],
                    BackFrom(turns, b))
  {
    table := new HashTable(entryNum, hash);
    ghost var n := |table.cool|;
    backs, turns := [], [];
    while |backs| < |calls|
      invariant |turns| == |backs| <= |calls| && forall i | 0 <= i < |turns| :: backs[i] == turns[i].back
      invariant table.Valid() && table.hash == hash && fresh(table) && fresh(table.Parts)
      invariant |table.cool| == n && table.cool == TableAfter(turns, n)
      invariant TurnsOf(calls[..|turns|], turns, n, hash)
    {
      var call := calls[|backs|];
      assert call in calls;
      var back;
      ghost var turn;
      back, turn := Perform(table, call);
      OneMoreTurn(calls[..|turns|], turns, call, turn, n, hash);
      assert calls[..|turns| + 1] == calls[..|turns|] + [call];
      backs, turns := backs + [back], turns + [turn];
    }
    assert calls[..|turns|] == calls;
    forall b | 0 <= b < n
      ensures Tells(RunOf(EventsAt(turns, b)), CooledAt(calls, b, n, hash), table.cool[b], BackFrom(turns, b))
    {
      BucketTells(calls, turns, b, n, hash);
    }
  }

  lemma OneMoreTurn(calls: seq<TableCall>, turns: seq<Turn>, call: TableCall, turn: Turn, n: nat,
                    hash: GlobalAddress -> Hash)
    requires TurnsOf(calls, turns, n, hash) && ComesTo(call, turn, TableAfter(turns, n), hash)
    ensures TurnsOf(calls + [call], turns + [turn], n, hash)
    ensures TableAfter(turns + [turn], n) == After(TableAfter(turns, n), turn)
  {
    assert (turns + [turn])[..|turns|] == turns;
    forall i | 0 <= i < |turns| + 1 ensures TurnOk(calls + [call], turns + [turn], i, n, hash) {
      if i < |turns| {
        assert TurnOk(calls, turns, i, n, hash);
        assert (turns + [turn])[..i] == turns[..i];
      }
    }
  }
}
