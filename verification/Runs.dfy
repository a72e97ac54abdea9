/** Whole runs of the tree against the plain map it stands for. */
module Runs {
  import opened Types
  import opened BPlusTree
  import opened CacheState
  import opened TreeFacts
  import opened SplitCount
  import opened TreeDescent
  import opened TreeShape
  import opened Backend
  import opened LeanStoreTree

  datatype Op =
    | Insert(key: Key, value: Value)
    | Lookup(key: Key)
    | Update(key: Key, value: Value)
    | Remove(key: Key)
    | Scan(key: Key, num: nat)
    | Flush

  datatype Answer = Flag(b: bool) | Found(value: Option<Value>) | Entries(es: seq<Entry>) | Nothing

  /** The map after one operation. */
  function After(m: map<Key, Value>, op: Op): map<Key, Value> {
    match op
    case Insert(k, v) => m[k := v]
    case Update(k, v) => if k in m then m[k := v] else m
    case Remove(k) => m - {k}
    case _ => m
  }

  function MapAfter(m: map<Key, Value>, ops: seq<Op>): map<Key, Value> {
    if ops == [] then m else After(MapAfter(m, ops[..|ops| - 1]), ops[|ops| - 1])
  }

  /** What a plain map m answers to op. */
  ghost predicate RightAnswer(m: map<Key, Value>, op: Op, a: Answer) {
    match op
    case Insert(k, _) => a == Flag(k !in m)
    case Lookup(k) => a == Found(if k in m then Some(m[k]) else None)
    case Update(k, _) => a == Flag(k in m)
    case Remove(k) => a == Flag(k in m)
    case Scan(k, num) => a.Entries? && ScanOf(m, k, num, a.es)
    case Flush => a == Nothing
  }

  /** Answer i is what the map left by the operations before it gives. */
  ghost predicate AllRight(m: map<Key, Value>, ops: seq<Op>, answers: seq<Answer>) {
    && |answers| <= |ops|
    && forall i | 0 <= i < |answers| :: RightAnswer(MapAfter(m, ops[..i]), ops[i], answers[i])
  }

  lemma OneMoreRight(m: map<Key, Value>, ops: seq<Op>, answers: seq<Answer>, a: Answer)
    requires AllRight(m, ops, answers) && |answers| < |ops|
    requires RightAnswer(MapAfter(m, ops[..|answers|]), ops[|answers|], a)
    ensures AllRight(m, ops, answers + [a])
    ensures MapAfter(m, ops[..|answers| + 1]) == After(MapAfter(m, ops[..|answers|]), ops[|answers|])
  {
    hide RightAnswer;
    var n := |answers|;
    assert ops[..n + 1][..n] == ops[..n];
    forall i | 0 <= i < n + 1 ensures RightAnswer(MapAfter(m, ops[..i]), ops[i], (answers + [a])[i]) {
      assert i < n ==> (answers + [a])[i] == answers[i];
    }
  }

  // --- When an operation may end a run ---

  /** The pool, the logical pages and the tree between two operations, and the bytes the backend has left. */
  datatype Moment = Moment(s: State, st: Store, slot: Slot, root: GlobalAddress, height: nat, left: int)

  ghost function Now(t: LeanStoreTree): Moment
    reads t.Repr()
  {
    Moment(t.cache.S(), t.cache.logical, t.rootSlot, t.root, t.height,
           t.cache.backend.capacityBytes - t.cache.backend.curOffset)
  }

  /** What can hold up an operation: a page on the way to its key is not in the pool, or for an insert
      is full. */
  ghost predicate Waits(op: Op, now: Moment) {
    match op
    case Insert(k, _) => Held(now.s, now.st, k)
    case Flush => false
    case _ => Misses(now.s, now.st, op.key)
  }

  /** What ends a run at an operation: no frame can be had for the pages missing on its way without the
      sampler, which gave up; or, at an insert with full pages on its way only, the backend has not got
      the pages it adds, or an inner page is split where the sampler can do harm. */
  ghost predicate Ends(op: Op, now: Moment, why: Halt) {
    match op
    case Insert(k, _) =>
      (match why
       case SamplerGaveUp => Crowded(now.st, k) || !Served(now.s, now.st, k)
       case BackendFull => now.left < PAGE_SIZE * AllDue(now.st, now.root, now.height, k)
       case SplitHazard => FullInners(now.st, k, now.height) != {})
    case Flush => false
    case _ => why == SamplerGaveUp && !Served(now.s, now.st, op.key)
  }

  /** The pool may have moved pages; the tree is as it was. */
  ghost predicate SameLogical(was: Moment, now: Moment) {
    now == was.(s := now.s)
  }

  /** An update or a remove changes the leaf of its key, if it has that key, and nothing else. */
  ghost predicate LeafChanged(was: Moment, k: Key, now: Moment, changed: bool) {
    && now == was.(s := now.s, st := now.st) && OnlyLeafOf(was.st, now.st, k)
    && (Misses(was.s, was.st, k) || if changed then LeafWrite(was.s, was.st, k, now.s) else now.s == was.s)
  }

  /** An insert adds a page for every full one on the way, and a root if the root is one; with none of
      them full it changes the leaf of its key only. */
  ghost predicate Added(was: Moment, k: Key, now: Moment) {
    && now.height == was.height + (if FullAt(was.st, k, was.root) then 1 else 0)
    && |Leaves(now.st)| == |Leaves(was.st)| + |FullLeaves(was.st, k, was.height)|
    && |Inners(now.st)| == |Inners(was.st)| + |FullInners(was.st, k, was.height)| + now.height - was.height
    && now.left == was.left - PAGE_SIZE * AllDue(was.st, was.root, was.height, k)
    && (!Crowded(was.st, k) ==> LeafChanged(was, k, now, true))
  }

  /** A scan reads the tree's listing from k on, until it has num entries or the leaf of k ends. */
  ghost predicate ScansRight(was: Moment, m: map<Key, Value>, k: Key, num: nat, es: seq<Entry>) {
    && Linked(was.st) && was.root in was.st && ScansInOrder(was.st, was.root, k, num, es)
    && ScansLeaf(was.st, m, k, num, es)
  }

  /** Every page is in the backend as it is in the tree, and no frame is dirty. */
  ghost predicate AllStored(was: Moment, now: Moment) {
    && |now.s.frames| == |was.s.frames|
    && (forall f | 0 <= f < |now.s.frames| :: now.s.frames[f] == was.s.frames[f].(dirty := false))
    && forall a | a in now.st ::
         a in now.s.disk && now.s.disk[a].remote == a && now.s.disk[a].node == Lift(now.st[a])
  }

  /** What an operation does to the tree on map m when it answers a. */
  ghost predicate Follows(was: Moment, m: map<Key, Value>, op: Op, a: Answer, now: Moment) {
    match op
    case Insert(k, _) => Added(was, k, now)
    case Update(k, _) => LeafChanged(was, k, now, k in m)
    case Remove(k) => LeafChanged(was, k, now, k in m)
    case Lookup(k) => SameLogical(was, now) && (Misses(was.s, was.st, k) || now == was)
    case Scan(k, num) =>
      && SameLogical(was, now) && (Misses(was.s, was.st, k) || now == was)
      && a.Entries? && ScansRight(was, m, k, num, a.es)
    case Flush => SameLogical(was, now) && AllStored(was, now)
  }

  /** A sound tree whose pages hold what the operations so far have left. */
  ghost predicate MomentOk(m: map<Key, Value>, ops: seq<Op>, answers: seq<Answer>, moments: seq<Moment>, i: nat) {
    && i < |moments| && i <= |ops| && i <= |answers|
    && var now := moments[i];
    && TreeInv(now.s, now.st, now.slot, now.root, now.height, MapAfter(m, ops[..i]))
    && (i > 0 ==> Follows(moments[i - 1], MapAfter(m, ops[..i - 1]), ops[i - 1], answers[i - 1], now))
  }

  ghost predicate History(m: map<Key, Value>, ops: seq<Op>, answers: seq<Answer>, moments: seq<Moment>) {
    moments != [] && forall i {:trigger MomentOk(m, ops, answers, moments, i)} | 0 <= i < |moments| ::
      MomentOk(m, ops, answers, moments, i)
  }

  lemma OneMoreMoment(m: map<Key, Value>, ops: seq<Op>, answers: seq<Answer>, moments: seq<Moment>, a: Answer,
                      now: Moment)
    requires History(m, ops, answers, moments) && |moments| == |answers| + 1 && |moments| <= |ops|
    requires TreeInv(now.s, now.st, now.slot, now.root, now.height, MapAfter(m, ops[..|moments|]))
    requires Follows(moments[|answers|], MapAfter(m, ops[..|answers|]), ops[|answers|], a, now)
    ensures History(m, ops, answers + [a], moments + [now])
  {
    hide TreeInv, MapAfter, Follows;
    forall i | 0 <= i < |moments| + 1 ensures MomentOk(m, ops, answers + [a], moments + [now], i) {
      assert i < |moments| ==> MomentOk(m, ops, answers, moments, i);
    }
  }

  lemma TreeNow(t: LeanStoreTree)
    requires t.Valid()
    ensures var now := Now(t); TreeInv(now.s, now.st, now.slot, now.root, now.height, t.contents)
    ensures t.leafNum == |Leaves(Now(t).st)| && t.innerNum == |Inners(Now(t).st)|
  {
  }

  // --- Runs ---

  method PerformInsert(t: LeanStoreTree, k: Key, v: Value) returns (r: Outcome<Answer>)
    requires t.Valid()
    modifies t.Repr()
    ensures r.Done? ==> t.Valid() && r.value == Flag(k !in old(t.contents)) && t.contents == old(t.contents)[k := v]
    ensures r.Done? ==> Added(old(Now(t)), k, Now(t)) && t.Spare() == old(t.Spare())
    ensures r.Halted? ==> t.Exhausted(r.why) && t.contents == old(t.contents)
    ensures r.Halted? ==> Held(old(Now(t)).s, old(Now(t)).st, k) && Ends(Insert(k, v), old(Now(t)), r.why)
    ensures old(t.Roomy()) ==> if r.Done? then t.Roomy() else r.why == BackendFull
  {
    hide LeanStoreTree.Valid, LeanStoreTree.Exhausted, LeanStoreTree.Roomy;
    hide OnlyLeafOf, LeafWrite, Served, Misses, FullLeaves, FullInners, Leaves, Inners;
    ghost var was := Now(t);
    TreeNow(t);
    if !Served(was.s, was.st, k) { UnservedMisses(was.s, was.st, k); }
    var b := t.Insert(k, v);
    if b.Halted? {
      return Halted(b.why);
    }
    TreeNow(t);
    return Done(Flag(b.value));
  }

  method PerformScan(t: LeanStoreTree, k: Key, num: nat) returns (r: Outcome<Answer>)
    requires t.Valid()
    modifies t.Repr()
    ensures r.Done? ==> t.Valid() && RightAnswer(t.contents, Scan(k, num), r.value)
                        && Follows(old(Now(t)), t.contents, Scan(k, num), r.value, Now(t))
    ensures t.contents == old(t.contents) && t.Spare() == old(t.Spare())
    ensures r.Halted? ==> t.Exhausted(r.why)
    ensures r.Halted? ==> Waits(Scan(k, num), old(Now(t))) && Ends(Scan(k, num), old(Now(t)), r.why)
    ensures old(t.Roomy()) ==> r.Done? && t.Roomy()
  {
    hide LeanStoreTree.Valid, LeanStoreTree.Exhausted, LeanStoreTree.Roomy;
    hide Served, Misses, ScansInOrder, ScansLeaf, ScanOf;
    ghost var was := Now(t);
    TreeNow(t);
    if !Served(was.s, was.st, k) { UnservedMisses(was.s, was.st, k); }
    var es :- t.RangeScan(k, num);
    return Done(Entries(es));
  }

  method PerformFlush(t: LeanStoreTree)
    requires t.Valid()
    modifies t.Repr()
    ensures t.Valid() && t.contents == old(t.contents) && t.Spare() == old(t.Spare())
    ensures Follows(old(Now(t)), t.contents, Flush, Nothing, Now(t))
    ensures old(t.Roomy()) ==> t.Roomy()
  {
    hide LeanStoreTree.Valid, LeanStoreTree.Roomy;
    t.Flush();
  }

  /** One operation; one that nothing holds up always returns. */
  method Perform(t: LeanStoreTree, op: Op) returns (r: Outcome<Answer>)
    requires t.Valid()
    modifies t.Repr()
    ensures r.Done? ==> t.Valid() && RightAnswer(old(t.contents), op, r.value)
                        && t.contents == After(old(t.contents), op)
    ensures r.Done? ==> Follows(old(Now(t)), old(t.contents), op, r.value, Now(t)) && t.Spare() == old(t.Spare())
    ensures r.Halted? ==> t.Exhausted(r.why) && t.contents == old(t.contents)
    ensures r.Halted? ==> Waits(op, old(Now(t))) && Ends(op, old(Now(t)), r.why)
    ensures old(t.Roomy()) ==> if r.Done? then t.Roomy() else r.why == BackendFull && op.Insert?
  {
    hide LeanStoreTree.Valid, LeanStoreTree.Exhausted, LeanStoreTree.Roomy, OnlyLeafOf, LeafWrite, Served;
    hide Misses, Added, Held, ScansRight, ScanOf, AllStored;
    ghost var was := Now(t);
    TreeNow(t);
    if !op.Flush? && !Served(was.s, was.st, op.key) { UnservedMisses(was.s, was.st, op.key); }
    match op {
      case Insert(k, v) => {
        r := PerformInsert(t, k, v);
      }
      case Lookup(k) => {
        var x :- t.Lookup(k);
        return Done(Found(x));
      }
      case Update(k, v) => {
        var b :- t.Update(k, v);
        return Done(Flag(b));
      }
      case Remove(k) => {
        var b :- t.Remove(k);
        return Done(Flag(b));
      }
      case Scan(k, num) => {
        r := PerformScan(t, k, num);
      }
      case Flush => {
        PerformFlush(t);
        return Done(Nothing);
      }
    }
  }

  /** A run so far: every answer is right, and the tree has come to the last of these moments. */
  ghost predicate SoFar(t: LeanStoreTree, m: map<Key, Value>, ops: seq<Op>, answers: seq<Answer>, moments: seq<Moment>)
    reads t.Repr()
  {
    && t.Valid() && AllRight(m, ops, answers) && t.contents == MapAfter(m, ops[..|answers|])
    && History(m, ops, answers, moments) && |moments| == |answers| + 1 && moments[|answers|] == Now(t)
  }

  /** One more operation of a run. */
  method AnswerNext(t: LeanStoreTree, ops: seq<Op>, answers: seq<Answer>, ghost m: map<Key, Value>,
                    ghost moments: seq<Moment>)
    returns (r: Outcome<Answer>, ghost moments': seq<Moment>)
    requires SoFar(t, m, ops, answers, moments) && |answers| < |ops|
    modifies t.Repr()
    ensures r.Done? ==> SoFar(t, m, ops, answers + [r.value], moments') && moments'[0] == moments[0]
                        && t.Spare() == old(t.Spare())
    ensures r.Halted? ==> t.Exhausted(r.why) && t.contents == old(t.contents) && moments' == moments
    ensures r.Halted? ==> Waits(ops[|answers|], moments[|answers|]) && Ends(ops[|answers|], moments[|answers|], r.why)
    ensures old(t.Roomy()) ==> if r.Done? then t.Roomy() else r.why == BackendFull && ops[|answers|].Insert?
  {
    hide After, RightAnswer, Waits, Ends, Follows, TreeInv;
    hide LeanStoreTree.Valid, LeanStoreTree.Exhausted, LeanStoreTree.Roomy;
    r := Perform(t, ops[|answers|]);
    moments' := moments;
    if r.Done? {
      OneMoreRight(m, ops, answers, r.value);
      TreeNow(t);
      OneMoreMoment(m, ops, answers, moments, r.value, Now(t));
      moments' := moments + [Now(t)];
    }
  }

  lemma Begun(t: LeanStoreTree, ops: seq<Op>)
    requires t.Valid()
    ensures SoFar(t, t.contents, ops, [], [Now(t)])
  {
    TreeNow(t);
    assert MomentOk(t.contents, ops, [], [Now(t)], 0);
  }

  /** Every answer of a run is the one a plain map gives, whatever the cache did in between. A run that
      ends early has answered right so far and has lost nothing: the pages still hold the map of the
      operations answered; and it ends at an operation that may end a run for that reason.
      With a frame for every backend page it ends early only at an insert that finds the backend full. */
  method Run(t: LeanStoreTree, ops: seq<Op>)
    returns (answers: seq<Answer>, end: Option<Halt>, ghost moments: seq<Moment>)
    requires t.Valid()
    modifies t.Repr()
    ensures AllRight(old(t.contents), ops, answers)
    ensures end.None? ==> |answers| == |ops| && t.Valid() && t.contents == MapAfter(old(t.contents), ops)
    ensures end.Some? ==> |answers| < |ops| && t.Exhausted(end.value)
    ensures end.Some? ==> t.contents == MapAfter(old(t.contents), ops[..|answers|])
    ensures History(old(t.contents), ops, answers, moments) && |moments| == |answers| + 1 && moments[0] == old(Now(t))
    ensures if end.None? then moments[|answers|] == Now(t) && t.Spare() == old(t.Spare())
            else Waits(ops[|answers|], moments[|answers|]) && Ends(ops[|answers|], moments[|answers|], end.value)
    ensures old(t.Roomy()) ==> if end.None? then t.Roomy() else end.value == BackendFull && ops[|answers|].Insert?
  {
    hide Waits, Ends;
    answers := [];
    ghost var m := t.contents;
    moments := [Now(t)];
    Begun(t, ops);
    while |answers| < |ops|
      invariant SoFar(t, m, ops, answers, moments) && moments[0] == old(Now(t))
      invariant (old(t.Roomy()) ==> t.Roomy()) && t.Spare() == old(t.Spare())
    {
      var r;
      r, moments := AnswerNext(t, ops, answers, m, moments);
      if r.Halted? {
        return answers, Some(r.why), moments;
      }
      answers := answers + [r.value];
    }
    assert ops[..|ops|] == ops;
    return answers, None, moments;
  }

  /** The same from the start: a tree built on a fresh backend behaves like an initially empty map. If
      the pool has as many frames as the backend has pages to give, nothing is ever cooled and only a
      full backend ends a run. */
  method RunFromScratch(pageNums: nat, capacity: nat, coolingEntries: nat, hash: GlobalAddress -> Hash, ops: seq<Op>)
    returns (t: LeanStoreTree, answers: seq<Answer>, end: Option<Halt>, ghost moments: seq<Moment>)
    requires 2 <= pageNums && 0 < capacity <= TWO_48 && 0 < coolingEntries
    ensures AllRight(map[], ops, answers)
    ensures end.None? ==> |answers| == |ops| && t.Valid() && t.contents == MapAfter(map[], ops)
    ensures end.Some? ==> |answers| < |ops| && t.Exhausted(end.value)
    ensures end.Some? ==> t.contents == MapAfter(map[], ops[..|answers|])
    ensures History(map[], ops, answers, moments) && |moments| == |answers| + 1
    ensures if end.None? then moments[|answers|] == Now(t) && t.Spare() == PAGE_SIZE
            else Waits(ops[|answers|], moments[|answers|]) && Ends(ops[|answers|], moments[|answers|], end.value)
    ensures pageNums <= capacity + 1 ==> if end.None? then t.Roomy()
            else end.value == BackendFull && ops[|answers|].Insert?
  {
    hide LeanStoreTree.Exhausted, LeanStoreTree.Valid, Waits, Ends, History, AllRight;
    var backend := new InMemoryBackend(pageNums);
    t := new LeanStoreTree(backend, capacity, coolingEntries, hash);
    answers, end, moments := Run(t, ops);
  }
}
