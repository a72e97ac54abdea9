/** Calls of sample_page, followed pick by pick and branch by branch on whatever the pool shows; and in
    the window of an inner split, which sequences of random choices do harm, and from which states there
    are any. */
module WindowRuns {
  import opened Types
  import opened Node
  import opened BPlusTree
  import opened CacheState
  import opened CacheSteps
  import opened CoolingTable
  import opened SplitSteps
  import opened SampleSteps
  import opened SplitWindow

  // --- One pass through sample_page's loop, on any state ---

  /** A random frame, the way recursive_iterate took from it, and the slot it took last (-1: none). */
  datatype Pick = Pick(path: seq<FrameId>, idx: int)

  function Bottom(pick: Pick): FrameId
    requires pick.path != []
  {
    pick.path[|pick.path| - 1]
  }

  /** Slot j of frame x has its bit set and leads to frame y. */
  ghost predicate Leads(s: State, x: FrameId, j: int, y: FrameId) {
    && x < |s.frames| && s.frames[x].node.Inner? && 0 <= j < |s.frames[x].node.children|
    && j in s.frames[x].bitmap && s.frames[x].node.children[j] == Tagged(y)
  }

  ghost predicate Above(s: State, x: FrameId, y: FrameId) {
    exists j :: Leads(s, x, j, y)
  }

  ghost predicate Down(s: State, path: seq<FrameId>, i: nat) {
    i + 1 < |path| && Above(s, path[i], path[i + 1])
  }

  /** A way down through set bits, as far as it has come. */
  ghost predicate Trail(s: State, pick: Pick) {
    && pick.path != [] && (forall i | 0 <= i < |pick.path| :: pick.path[i] < |s.frames|)
    && (forall i {:trigger Down(s, pick.path, i)} | 0 <= i < |pick.path| - 1 :: Down(s, pick.path, i))
    && (if |pick.path| == 1 then pick.idx == -1 else Leads(s, pick.path[|pick.path| - 2], pick.idx, Bottom(pick)))
  }

  lemma TrailStarts(s: State, x: FrameId)
    requires x < |s.frames|
    ensures Trail(s, Pick([x], -1))
  {
  }

  lemma TrailOn(s: State, pick: Pick, j: int, y: FrameId)
    requires Trail(s, pick) && Leads(s, Bottom(pick), j, y) && y < |s.frames|
    ensures Trail(s, Pick(pick.path + [y], j))
  {
    var path := pick.path + [y];
    forall i | 0 <= i < |path| - 1 ensures Down(s, path, i) {
      assert i < |pick.path| - 1 ==> Down(s, pick.path, i);
    }
  }

  /** The walk starts at a HOT frame and ends where no bit is set. */
  ghost predicate Walked(s: State, pick: Pick) {
    Trail(s, pick) && s.frames[pick.path[0]].pos == HOT && s.frames[Bottom(pick)].bitmap == {}
  }

  /** What one pass comes to: the loop goes on, an assertion stops the program, or a page is cooled. */
  datatype Verdict = Again(next: State) | Aborts | Cools(next: State, page: FrameId)

  /** Cooling a frame that has no parent: nothing is unhooked. */
  function Loosened(s: State, c: FrameId, b: nat): State
    requires c < |s.frames| && b < |s.cool| && forall e | e in s.cool[b] :: e.page < |s.frames|
  {
    var s1 := Chilled(Cleaned(s, c), c, b);
    if |s.cool[b]| < NUM_ENTRIES then s1 else Recycled(s1, b)
  }

  /** Frame c without its parent pointer. */
  function Disowned(s: State, c: FrameId): State
    requires c < |s.frames|
  {
    s.(frames := s.frames[c := s.frames[c].(parent := NoParent)])
  }

  /** Bucket b exists and holds frames of the pool. */
  ghost predicate Booked(s: State, b: nat) {
    b < |s.cool| && forall e | e in s.cool[b] :: e.page < |s.frames|
  }

  ghost function Pass(s: State, pick: Pick, b: nat): Verdict
    requires Walked(s, pick) && Booked(s, b)
  {
    var c := Bottom(pick);
    if s.frames[c].pos != HOT then Again(s)
    else
      match Judge(s.frames, c, pick.idx)
      case Skip => Again(s)
      case Orphan(_) => Cools(Loosened(s, c, b), c)
      case Stale(_) => Again(Disowned(s, c))
      case Mismatch(_) => Aborts
      case Cool(_, g, i) => Cools(Sampled(s, c, g, i, b), c)
  }

  /** A random frame that is not HOT, or a walk from one that is. */
  ghost predicate Drawn(s: State, pick: Pick) {
    || Walked(s, pick)
    || (|pick.path| == 1 && pick.path[0] < |s.frames| && s.frames[pick.path[0]].pos != HOT && pick.idx == -1)
  }

  /** The branch a pass takes. */
  ghost function Chosen(s: State, pick: Pick): Choice
    requires Drawn(s, pick)
  {
    if !Walked(s, pick) || s.frames[Bottom(pick)].pos != HOT then Skip else Judge(s.frames, Bottom(pick), pick.idx)
  }

  /** One turn of the loop: a frame that is not HOT is passed over. */
  ghost function Try(s: State, pick: Pick, b: nat): Verdict
    requires Drawn(s, pick) && Booked(s, b)
  {
    if Walked(s, pick) then Pass(s, pick, b) else Again(s)
  }

  /** What the branch comes to. */
  lemma ChosenTry(s: State, pick: Pick, b: nat)
    requires Drawn(s, pick) && Booked(s, b)
    ensures var choice, verdict := Chosen(s, pick), Try(s, pick, b);
            && (choice.Skip? ==> verdict == Again(s))
            && (choice.Stale? ==> choice.page < |s.frames| && verdict == Again(Disowned(s, choice.page)))
            && (choice.Cool? ==>
                  && choice.page == Bottom(pick) && choice.page < |s.frames| && choice.parent < |s.frames|
                  && choice.page != choice.parent && s.frames[choice.parent].node.Inner?
                  && choice.idx < |s.frames[choice.parent].node.children|
                  && verdict == Cools(Sampled(s, choice.page, choice.parent, choice.idx, b), choice.page))
            && (choice.Orphan? ==> verdict.Cools? && verdict.page == choice.page)
            && (choice.Mismatch? ==> verdict.Aborts?)
  {
    hide Sampled, Loosened, CheckParentChildInfo;
  }

  // --- Calls of sample_page ---

  /** What becomes of a call, or of several in a row: tries are still left, it has gone wrong (the
      program stops, or a frame is cooled that a moved slot still names), or it has returned. */
  datatype Fate = Unfinished | Wrong | Returned(state: State)

  ghost function Call(s: State, moved: seq<Slot>, picks: seq<Pick>, bucket: GlobalAddress -> nat): Fate
    decreases |picks|
  {
    if picks == [] || !Drawn(s, picks[0]) then Unfinished
    else
      var b := bucket(s.frames[Bottom(picks[0])].remote);
      if !Booked(s, b) then Unfinished
      else
        match Try(s, picks[0], b)
        case Again(next) => Call(next, moved, picks[1..], bucket)
        case Aborts => Wrong
        case Cools(next, c) => if Tagged(c) in moved then Wrong else Returned(next)
  }

  /** The state once all these picks have been tried and none has cooled a page or done harm. */
  ghost function InVain(s: State, picks: seq<Pick>, bucket: GlobalAddress -> nat): Option<State>
    decreases |picks|
  {
    if picks == [] then Some(s)
    else
      match InVain(s, picks[..|picks| - 1], bucket)
      case None => None
      case Some(t) =>
        var last := picks[|picks| - 1];
        if !Drawn(t, last) then None
        else
          var b := bucket(t.frames[Bottom(last)].remote);
          if Booked(t, b) && Try(t, last, b).Again? then Some(Try(t, last, b).next) else None
  }

  lemma NoneInVain(s: State, bucket: GlobalAddress -> nat)
    ensures InVain(s, [], bucket) == Some(s)
  {
  }

  /** Picks tried in vain only use up tries. */
  lemma {:induction false} InVainThen(s: State, moved: seq<Slot>, picks: seq<Pick>, rest: seq<Pick>,
                                      bucket: GlobalAddress -> nat)
    requires InVain(s, picks, bucket).Some?
    ensures Call(s, moved, picks + rest, bucket) == Call(InVain(s, picks, bucket).value, moved, rest, bucket)
    decreases |picks|
  {
    hide Try, Drawn, Booked;
    if picks == [] {
      assert picks + rest == rest;
    } else {
      var last := picks[|picks| - 1];
      InVainThen(s, moved, picks[..|picks| - 1], [last] + rest, bucket);
      assert picks[..|picks| - 1] + ([last] + rest) == picks + rest;
      assert ([last] + rest)[1..] == rest;
    }
  }

  /** What sample_page has done when it cools page c at its last pick, or comes to harm there. */
  lemma LastPick(s: State, moved: seq<Slot>, picks: seq<Pick>, t: State, last: Pick, bucket: GlobalAddress -> nat)
    requires InVain(s, picks, bucket) == Some(t) && Drawn(t, last)
    requires Booked(t, bucket(t.frames[Bottom(last)].remote))
    ensures var verdict := Try(t, last, bucket(t.frames[Bottom(last)].remote));
            if verdict.Again? then InVain(s, picks + [last], bucket) == Some(verdict.next)
            else Call(s, moved, picks + [last], bucket) ==
                 if verdict.Aborts? || Tagged(verdict.page) in moved then Wrong else Returned(verdict.next)
  {
    hide Try, Drawn, Booked;
    InVainThen(s, moved, picks, [last], bucket);
    assert (picks + [last])[..|picks|] == picks;
  }

  ghost function Calls(s: State, moved: seq<Slot>, calls: seq<seq<Pick>>, bucket: GlobalAddress -> nat): Fate
    decreases |calls|
  {
    if calls == [] then Returned(s)
    else
      match Call(s, moved, calls[0], bucket)
      case Unfinished => Unfinished
      case Wrong => Wrong
      case Returned(next) => Calls(next, moved, calls[1..], bucket)
  }

  lemma NoCalls(s: State, moved: seq<Slot>, bucket: GlobalAddress -> nat)
    ensures Calls(s, moved, [], bucket) == Returned(s) && WithinTries([])
  {
  }

  lemma {:induction false} CallsThen(s: State, moved: seq<Slot>, calls: seq<seq<Pick>>, t: State, last: seq<Pick>,
                                     bucket: GlobalAddress -> nat)
    requires Calls(s, moved, calls, bucket) == Returned(t)
    ensures Calls(s, moved, calls + [last], bucket) == Call(t, moved, last, bucket)
    ensures WithinTries(calls) && |last| < MAX_TRIES ==> WithinTries(calls + [last])
    decreases |calls|
  {
    hide Call;
    if calls == [] {
      assert [last][1..] == [];
    } else {
      CallsThen(Call(s, moved, calls[0], bucket).state, moved, calls[1..], t, last, bucket);
      assert (calls + [last])[1..] == calls[1..] + [last];
    }
  }

  /** The thousandth try of a call leaves the process before it looks at a frame. */
  ghost predicate WithinTries(calls: seq<seq<Pick>>) {
    forall i | 0 <= i < |calls| :: |calls[i]| < MAX_TRIES
  }

  /** The hash sends every address to a bucket. */
  ghost predicate Hashes(s: State, bucket: GlobalAddress -> nat) {
    forall a :: bucket(a) < |s.cool|
  }

  /** One turn of try_get_empty_page, from w to next: a frame at hand is taken; or two pages are cooled, and
      then the last frame of local_page_set is taken if there is one. */
  ghost predicate Turn(w: State, moved: seq<Slot>, bucket: GlobalAddress -> nat, page: Option<FrameId>, next: State) {
    || (page.Some? && Takes(w, next, page.value))
    || (NothingAtHand(w) && exists v :: TwoCooled(w, moved, bucket, v) && FromLocal(v, page, next))
  }

  ghost predicate FromLocal(v: State, page: Option<FrameId>, next: State) {
    if v.free == [] then page.None? && next == v else page == Some(v.free[|v.free| - 1]) && next == TakeFree(v)
  }

  ghost predicate TwoCooled(w: State, moved: seq<Slot>, bucket: GlobalAddress -> nat, v: State) {
    exists calls :: |calls| == 2 && WithinTries(calls) && Calls(w, moved, calls, bucket) == Returned(v)
  }

  /** get_empty_page comes back with a frame: the turn that has one, after any number without. */
  ghost predicate Obtained(w: State, moved: seq<Slot>, bucket: GlobalAddress -> nat, p: FrameId, next: State) {
    exists turns, v :: EmptyTurns(w, moved, bucket, turns, v) && Turn(v, moved, bucket, Some(p), next)
  }

  lemma TurnTook(w: State, moved: seq<Slot>, bucket: GlobalAddress -> nat, p: FrameId, next: State)
    requires Takes(w, next, p)
    ensures Turn(w, moved, bucket, Some(p), next)
  {
  }

  lemma TurnCooled(w: State, moved: seq<Slot>, bucket: GlobalAddress -> nat, calls: seq<seq<Pick>>, v: State,
                   page: Option<FrameId>, next: State)
    requires NothingAtHand(w) && |calls| == 2 && WithinTries(calls) && Calls(w, moved, calls, bucket) == Returned(v)
    requires FromLocal(v, page, next)
    ensures Turn(w, moved, bucket, page, next)
  {
    hide Calls;
    assert TwoCooled(w, moved, bucket, v);
  }

  lemma NoTurnYet(w: State, moved: seq<Slot>, bucket: GlobalAddress -> nat)
    ensures EmptyTurns(w, moved, bucket, [w], w)
  {
  }

  lemma OneMoreTurn(w: State, moved: seq<Slot>, bucket: GlobalAddress -> nat, turns: seq<State>, v: State, next: State)
    requires EmptyTurns(w, moved, bucket, turns, v) && Turn(v, moved, bucket, None, next)
    ensures EmptyTurns(w, moved, bucket, turns + [next], next)
  {
    hide Turn;
  }

  /** get_empty_page: turn after turn from w to v without a frame. */
  ghost predicate EmptyTurns(w: State, moved: seq<Slot>, bucket: GlobalAddress -> nat, turns: seq<State>, v: State) {
    && turns != [] && turns[0] == w && turns[|turns| - 1] == v
    && forall i | 0 < i < |turns| :: Turn(turns[i - 1], moved, bucket, None, turns[i])
  }

  /** The slots the cut has moved to the sibling. */
  function MovedBy(cut: Option<Cutting>): seq<Slot> {
    if cut.Some? then cut.value.moved else []
  }

  function TheCut(s: State, f: FrameId): Option<Cutting>
    requires f < |s.frames| && NodeOk(s.frames[f].node) && s.frames[f].node.Full() && s.frames[f].node.Inner?
  {
    Some(Cutting(f, Moved(s, f)))
  }

  // --- A pass without a hazard ---

  lemma {:induction false} WalkInPool(s: State, st: Store, cut: Option<Cutting>, pick: Pick, i: nat)
    requires Sound(s, st, cut) && Walked(Seen(s, cut), pick) && i < |pick.path|
    ensures InTree(s, pick.path[i])
    decreases i
  {
    if i > 0 {
      WalkInPool(s, st, cut, pick, i - 1);
      assert Down(Seen(s, cut), pick.path, i - 1);
      var j :| Leads(Seen(s, cut), pick.path[i - 1], j, pick.path[i]);
      BitLeads(s, st, cut, pick.path[i - 1], j);
    }
  }

  /** The bottom of a walk is resident, and hangs where the walk came from. */
  lemma WalkEnds(s: State, st: Store, cut: Option<Cutting>, pick: Pick)
    requires Sound(s, st, cut) && Walked(Seen(s, cut), pick)
    ensures InTree(s, Bottom(pick)) && (pick.idx == -1 || HangsSeen(s, cut, Bottom(pick), pick.idx))
  {
    WalkInPool(s, st, cut, pick, |pick.path| - 1);
    if |pick.path| > 1 {
      var x := pick.path[|pick.path| - 2];
      WalkInPool(s, st, cut, pick, |pick.path| - 2);
      BitLeads(s, st, cut, x, pick.idx);
    }
  }

  /** Frame c is cooled out of slot i of frame g, which takes state s to s1, and the split has nothing
      to do with it. */
  ghost predicate Moves(s: State, st: Store, f: FrameId, c: FrameId, g: FrameId, i: nat, b: nat, s1: State) {
    && AtWindow(s, st, f) && Choosable(s, TheCut(s, f), c, g, i) && Booked(s, b) && s1 == Sampled(s, c, g, i, b)
    && Kept(s, s1, st, TheCut(s, f)) && AtWindow(s1, st, f) && CooledOne(s, s1, c)
    && Moved(s1, f) == Moved(s, f) && |s1.cool| == |s.cool|
  }

  lemma ChosenMoves(s: State, st: Store, f: FrameId, c: FrameId, g: FrameId, i: nat, b: nat)
    requires AtWindow(s, st, f) && Choosable(s, TheCut(s, f), c, g, i) && b < |s.cool|
    ensures Booked(s, b) && Moves(s, st, f, c, g, i, b, Sampled(s, c, g, i, b))
    ensures Booked(Window(s, f), b) && Window(Sampled(s, c, g, i, b), f) == Sampled(Window(s, f), c, g, i, b)
  {
    ChosenKeeps(s, st, TheCut(s, f), c, g, i, b);
  }

  /** Without a hazard a pass changes nothing, or cools a page the split has nothing to do with. */
  lemma SafePass(s: State, st: Store, f: FrameId, bucket: GlobalAddress -> nat, pick: Pick)
    returns (c: FrameId, g: FrameId, i: nat, s1: State)
    requires AtWindow(s, st, f) && Hashes(s, bucket) && !Hazard(s, f) && Walked(Window(s, f), pick)
    ensures var w, b := Window(s, f), bucket(s.frames[Bottom(pick)].remote);
            && w.frames[Bottom(pick)].remote == s.frames[Bottom(pick)].remote && Booked(w, b)
            && if s.frames[Bottom(pick)].parent == SuperRoot then Pass(w, pick, b) == Again(w)
               else Moves(s, st, f, c, g, i, b, s1) && Pass(w, pick, b) == Cools(Window(s1, f), c)
                    && Tagged(c) !in Moved(s, f)
  {
    hide Moves;
    c, g, i, s1 := Bottom(pick), 0, 0, s;
    WalkEnds(s, st, TheCut(s, f), pick);
    JudgedRight(s, st, TheCut(s, f), c, pick.idx);
    var b := bucket(s.frames[c].remote);
    CoolPagesInPool(s, {}, b);
    if s.frames[c].parent != SuperRoot {
      var choice := Judge(Window(s, f).frames, c, pick.idx);
      g, i := choice.parent, choice.idx;
      ChosenMoves(s, st, f, c, g, i, b);
      s1 := Sampled(s, c, g, i, b);
    }
  }

  /** A call that meets no hazard does no harm, and if it returns it has cooled one such page. */
  lemma {:induction false} SafeCall(s: State, st: Store, f: FrameId, bucket: GlobalAddress -> nat, picks: seq<Pick>)
    returns (c: FrameId, g: FrameId, i: nat, b: nat, s1: State)
    requires AtWindow(s, st, f) && Hashes(s, bucket) && !Hazard(s, f)
    ensures var fate := Call(Window(s, f), Moved(s, f), picks, bucket);
            fate.Unfinished? || (Moves(s, st, f, c, g, i, b, s1) && fate == Returned(Window(s1, f)))
    decreases |picks|
  {
    c, g, i, b, s1 := 0, 0, 0, 0, s;
    if picks != [] && Walked(Window(s, f), picks[0]) {
      b := bucket(s.frames[Bottom(picks[0])].remote);
      c, g, i, s1 := SafePass(s, st, f, bucket, picks[0]);
      if s.frames[Bottom(picks[0])].parent == SuperRoot {
        c, g, i, b, s1 := SafeCall(s, st, f, bucket, picks[1..]);
      }
    } else if picks != [] {
      c, g, i, b, s1 := SafeCall(s, st, f, bucket, picks[1..]);
    }
  }

  // --- A pass with or without one ---

  /** A cleared parent pointer makes no difference to a walk. */
  lemma FreedWalked(w: State, loose: set<FrameId>, pick: Pick)
    requires Walked(Freed(w, loose), pick)
    ensures Walked(w, pick)
  {
    var v := Freed(w, loose);
    forall i | 0 <= i < |pick.path| - 1 ensures Down(w, pick.path, i) {
      assert Down(v, pick.path, i);
      var j :| Leads(v, pick.path[i], j, pick.path[i + 1]);
      assert Leads(w, pick.path[i], j, pick.path[i + 1]);
    }
  }

  lemma CoolPass(s: State, st: Store, f: FrameId, loose: set<FrameId>, c: FrameId, g: FrameId, i: nat, b: nat)
    returns (s1: State)
    requires AtWindow(s, st, f) && Choosable(s, TheCut(s, f), c, g, i) && c !in loose && b < |s.cool|
    ensures Moves(s, st, f, c, g, i, b, s1) && s1 == Sampled(s, c, g, i, b)
    ensures var w := Freed(Window(s, f), loose);
            && w.frames[g].node.Inner? && i < |w.frames[g].node.children| && FiledRight(w, b, c) && c != g
            && Freed(Window(s1, f), loose) == Sampled(w, c, g, i, b)
  {
    ChosenMoves(s, st, f, c, g, i, b);
    ShownReady(s, st, TheCut(s, f), loose, c, g, i, b);
    ChosenShown(s, st, TheCut(s, f), loose, c, g, i, b);
    s1 := Sampled(s, c, g, i, b);
  }

  /** Where a walk in the window ends, and the branch taken there. */
  lemma WalkJudged(s: State, st: Store, f: FrameId, loose: set<FrameId>, bucket: GlobalAddress -> nat, pick: Pick)
    requires AtWindow(s, st, f) && Hashes(s, bucket) && LooseOk(TheCut(s, f), loose)
    requires Walked(Freed(Window(s, f), loose), pick)
    ensures var w, c := Freed(Window(s, f), loose), Bottom(pick);
            var b, choice := bucket(s.frames[c].remote), Judge(w.frames, c, pick.idx);
            && w.frames[c].remote == s.frames[c].remote && w.frames[c].pos == HOT && b < |s.cool| && Booked(w, b)
            && (choice.Skip? <==> s.frames[c].parent == SuperRoot)
            && (choice.Cool? ==> choice.page == c && c !in loose && Tagged(c) !in Moved(s, f)
                                 && Choosable(s, TheCut(s, f), c, choice.parent, choice.idx))
            && (choice.Stale? ==> choice.page == c && Tagged(c) in Moved(s, f) && Hazard(s, f))
            && (choice.Orphan? ==> choice.page == c && Tagged(c) in Moved(s, f))
  {
    var cut, c := TheCut(s, f), Bottom(pick);
    FreedWalked(Window(s, f), loose, pick);
    WalkEnds(s, st, cut, pick);
    JudgedInWindow(s, st, cut, loose, c, pick.idx);
    CoolPagesInPool(s, {}, bucket(s.frames[c].remote));
  }

  /** What a pass may leave: the window as it was, up to the parent pointer of one more moved child; or
      the window of the same page with one other page cooled. Or it does harm. */
  lemma AnyPass(s: State, st: Store, f: FrameId, loose: set<FrameId>, bucket: GlobalAddress -> nat, pick: Pick)
    returns (g: FrameId, i: nat, s1: State, loose1: set<FrameId>)
    requires AtWindow(s, st, f) && Hashes(s, bucket) && LooseOk(TheCut(s, f), loose)
    requires Walked(Freed(Window(s, f), loose), pick)
    ensures LooseOk(TheCut(s, f), loose1) && (loose1 != loose ==> Hazard(s, f))
    ensures var w, c := Freed(Window(s, f), loose), Bottom(pick);
            var b := bucket(s.frames[c].remote);
            && w.frames[c].remote == s.frames[c].remote && Booked(w, b)
            && match Pass(w, pick, b)
               case Again(next) => next == Freed(Window(s, f), loose1)
               case Aborts => true
               case Cools(next, x) =>
                 && x == c
                 && (Tagged(c) !in Moved(s, f) ==>
                       && Moves(s, st, f, c, g, i, b, s1)
                       && next == Freed(Window(s1, f), loose1) && loose1 == loose)
  {
    hide Moves, Hazard, Choosable, Harmful, Judge;
    var cut, c := TheCut(s, f), Bottom(pick);
    g, i, s1, loose1 := 0, 0, s, loose;
    WalkJudged(s, st, f, loose, bucket, pick);
    var b := bucket(s.frames[c].remote);
    var choice := Judge(Freed(Window(s, f), loose).frames, c, pick.idx);
    if choice.Stale? {
      FreedOneMore(Window(s, f), loose, c);
      loose1 := loose + {c};
    } else if choice.Cool? {
      g, i := choice.parent, choice.idx;
      s1 := CoolPass(s, st, f, loose, c, g, i, b);
    }
  }

  /** State s1 with these parent pointers cleared is where a sound state sampled before the cut would have
      come to, n pages cooled. */
  ghost predicate Earlier(s: State, st: Store, f: FrameId, n: nat, s1: State, loose: set<FrameId>) {
    && AtWindow(s, st, f) && AtWindow(s1, st, f) && Kept(s, s1, st, TheCut(s, f)) && Moved(s1, f) == Moved(s, f)
    && Residents(s1) <= Residents(s) && |Residents(s1)| + n == |Residents(s)|
    && |s1.cool| == |s.cool| && LooseOk(TheCut(s, f), loose)
  }

  lemma {:induction false} AnyCall(s: State, st: Store, f: FrameId, loose: set<FrameId>, bucket: GlobalAddress -> nat,
                                   picks: seq<Pick>)
    returns (s1: State, loose1: set<FrameId>)
    requires AtWindow(s, st, f) && Hashes(s, bucket) && LooseOk(TheCut(s, f), loose)
    ensures var fate := Call(Freed(Window(s, f), loose), Moved(s, f), picks, bucket);
            fate.Returned? ==> Earlier(s, st, f, 1, s1, loose1) && fate.state == Freed(Window(s1, f), loose1)
                               && (loose1 != loose ==> Hazard(s, f))
    decreases |picks|
  {
    s1, loose1 := s, loose;
    var w := Freed(Window(s, f), loose);
    if picks != [] && Walked(w, picks[0]) {
      var b := bucket(s.frames[Bottom(picks[0])].remote);
      var g, i;
      g, i, s1, loose1 := AnyPass(s, st, f, loose, bucket, picks[0]);
      if Pass(w, picks[0], b).Again? {
        s1, loose1 := AnyCall(s, st, f, loose1, bucket, picks[1..]);
      }
    } else if picks != [] {
      s1, loose1 := AnyCall(s, st, f, loose, bucket, picks[1..]);
    }
  }

  /** A call that returns, hazard or not, has done no harm: it leaves the pool as if the sampler had run on
      the sound state and the page had been cut afterwards, up to the parent pointers of moved children,
      which update_all_parent_ptr sets again. Without a hazard not even these are touched. */
  lemma SafeCallIsEarlier(s: State, st: Store, f: FrameId, bucket: GlobalAddress -> nat, picks: seq<Pick>, next: State)
    requires AtWindow(s, st, f) && Hashes(s, bucket)
    requires Call(Window(s, f), Moved(s, f), picks, bucket) == Returned(next)
    ensures exists s1, loose :: Earlier(s, st, f, 1, s1, loose) && ShowsWindow(next, s1, f, loose)
                                && (!Hazard(s, f) ==> loose == {})
  {
    hide Call, Kept, Hazard;
    FreedNone(Window(s, f));
    var s1, loose := AnyCall(s, st, f, {}, bucket, picks);
    EarlierShows(s, st, f, 1, s1, loose);
  }

  lemma EarlierShows(s: State, st: Store, f: FrameId, n: nat, s1: State, loose: set<FrameId>)
    requires Earlier(s, st, f, n, s1, loose)
    ensures f < |s1.frames| && NodeOk(s1.frames[f].node) && s1.frames[f].node.Full()
    ensures ShowsWindow(Freed(Window(s1, f), loose), s1, f, loose)
  {
  }

  lemma {:induction false} AnyCalls(s: State, st: Store, f: FrameId, loose: set<FrameId>,
                                    bucket: GlobalAddress -> nat, calls: seq<seq<Pick>>)
    returns (s1: State, loose1: set<FrameId>)
    requires AtWindow(s, st, f) && Hashes(s, bucket) && LooseOk(TheCut(s, f), loose)
    ensures var fate := Calls(Freed(Window(s, f), loose), Moved(s, f), calls, bucket);
            fate.Returned? ==> Earlier(s, st, f, |calls|, s1, loose1) && fate.state == Freed(Window(s1, f), loose1)
    decreases |calls|
  {
    s1, loose1 := s, loose;
    if calls == [] {
      KeptItself(s, st, TheCut(s, f));
    } else {
      var first := Call(Freed(Window(s, f), loose), Moved(s, f), calls[0], bucket);
      var s2, loose2 := AnyCall(s, st, f, loose, bucket, calls[0]);
      if first.Returned? {
        s1, loose1 := AnyCalls(s2, st, f, loose2, bucket, calls[1..]);
        if Calls(Freed(Window(s2, f), loose2), Moved(s2, f), calls[1..], bucket).Returned? {
          KeptTransitive(s, s2, s1, st, TheCut(s, f));
        }
      }
    }
  }

  /** The same for any number of calls in a row. */
  lemma ReturnedIsEarlier(s: State, st: Store, f: FrameId, bucket: GlobalAddress -> nat, calls: seq<seq<Pick>>,
                          next: State)
    requires AtWindow(s, st, f) && Hashes(s, bucket)
    requires Calls(Window(s, f), Moved(s, f), calls, bucket) == Returned(next)
    ensures exists s1, loose :: Earlier(s, st, f, |calls|, s1, loose) && ShowsWindow(next, s1, f, loose)
  {
    hide Calls, Kept, Hazard;
    FreedNone(Window(s, f));
    var s1, loose := AnyCalls(s, st, f, {}, bucket, calls);
    EarlierShows(s, st, f, |calls|, s1, loose);
  }

  /** The next pass can do harm exactly when some frame is deadly. */
  lemma DeadlyIff(s: State, st: Store, f: FrameId, loose: set<FrameId>, bucket: GlobalAddress -> nat)
    requires AtWindow(s, st, f) && Hashes(s, bucket) && LooseOk(TheCut(s, f), loose)
    ensures var w := Freed(Window(s, f), loose);
            (exists pick :: Call(w, Moved(s, f), [pick], bucket).Wrong?) <==> Deadly(w)
  {
    var w, cut := Freed(Window(s, f), loose), TheCut(s, f);
    if pick :| Call(w, Moved(s, f), [pick], bucket).Wrong? {
      WrongIsDeadly(s, st, f, loose, bucket, pick);
    }
    if c: FrameId :| DeadlyAt(w, c) {
      DeadlyIsWrong(s, st, f, loose, bucket, c);
    }
  }

  lemma WrongIsDeadly(s: State, st: Store, f: FrameId, loose: set<FrameId>, bucket: GlobalAddress -> nat, pick: Pick)
    requires AtWindow(s, st, f) && Hashes(s, bucket) && LooseOk(TheCut(s, f), loose)
    requires Call(Freed(Window(s, f), loose), Moved(s, f), [pick], bucket).Wrong?
    ensures DeadlyAt(Freed(Window(s, f), loose), Bottom(pick))
  {
    var w, cut, c := Freed(Window(s, f), loose), TheCut(s, f), Bottom(pick);
    FreedWalked(Window(s, f), loose, pick);
    WalkEnds(s, st, cut, pick);
    JudgedInWindow(s, st, cut, loose, c, pick.idx);
    JudgedInWindow(s, st, cut, loose, c, -1);
    assert [pick][1..] == [];
  }

  lemma DeadlyIsWrong(s: State, st: Store, f: FrameId, loose: set<FrameId>, bucket: GlobalAddress -> nat, c: FrameId)
    requires AtWindow(s, st, f) && Hashes(s, bucket) && LooseOk(TheCut(s, f), loose)
    requires DeadlyAt(Freed(Window(s, f), loose), c)
    ensures Call(Freed(Window(s, f), loose), Moved(s, f), [Pick([c], -1)], bucket).Wrong?
  {
    var w, pick := Freed(Window(s, f), loose), Pick([c], -1);
    CoolPagesInPool(s, {}, bucket(s.frames[c].remote));
    JudgedInWindow(s, st, TheCut(s, f), loose, c, -1);
    assert Walked(w, pick);
  }

  // --- A hazard: two picks are enough ---

  /** A moved bottom child: the first pick orphans it, the second cools it while its new slot still
      names it. */
  lemma MovedChildIsCooled(s: State, st: Store, f: FrameId, bucket: GlobalAddress -> nat, c: FrameId)
    requires AtWindow(s, st, f) && Hashes(s, bucket) && c < |s.frames| && Tagged(c) in Moved(s, f)
             && s.frames[c].bitmap == {}
    ensures var pick := Pick([c], -1); Call(Window(s, f), Moved(s, f), [pick, pick], bucket).Wrong?
  {
    hide Sampled;
    hide CheckParentChildInfo;
    hide Loosened;
    hide Fits;
    hide Swizzled;
    var w, n, pick := Window(s, f), s.frames[f].node, Pick([c], -1);
    var o :| 0 <= o < |Moved(s, f)| && Moved(s, f)[o] == Tagged(c);
    var j := |Split(n).left.children| + o;
    assert n.children[j] == Tagged(c);
    ChildOf(s, f, j);
    CoolPagesInPool(s, {}, bucket(s.frames[c].remote));
    NotBelow(s, f, j);
    SplitOk(n);
    var w' := w.(frames := w.frames[c := w.frames[c].(parent := NoParent)]);
    assert Walked(w, pick) && Pass(w, pick, bucket(w.frames[c].remote)) == Again(w');
    assert Walked(w', pick) && Call(w', Moved(s, f), [pick], bucket).Wrong?;
    assert [pick, pick][1..] == [pick];
  }

  /** A cut page with no swizzled child left: its upper limit no longer matches its parent's slot. */
  lemma CutPageAborts(s: State, st: Store, f: FrameId, bucket: GlobalAddress -> nat)
    requires AtWindow(s, st, f) && Hashes(s, bucket) && Cut(s.frames[f]).bitmap == {} && s.frames[f].parent.InPool?
    ensures Call(Window(s, f), Moved(s, f), [Pick([f], -1)], bucket).Wrong?
  {
    var w, pick, g := Window(s, f), Pick([f], -1), s.frames[f].parent.frame;
    assert FrameSound(s, f) && FrameSound(s, g);
    LevelBelowParent(s, f);
    CoolPagesInPool(s, {}, bucket(s.frames[f].remote));
    var i :| 0 <= i < |s.frames[g].node.children| && s.frames[g].node.children[i] == Tagged(f);
    assert SlotSound(s, g, i);
    CheckFails(s, f, g, i);
    assert Walked(w, pick);
  }

  lemma HazardGoesWrong(s: State, st: Store, f: FrameId, bucket: GlobalAddress -> nat) returns (picks: seq<Pick>)
    requires AtWindow(s, st, f) && Hashes(s, bucket) && Hazard(s, f)
    ensures |picks| < MAX_TRIES && Call(Window(s, f), Moved(s, f), picks, bucket).Wrong?
  {
    if c: FrameId :| c < |s.frames| && Tagged(c) in Moved(s, f) && s.frames[c].bitmap == {} {
      MovedChildIsCooled(s, st, f, bucket, c);
      picks := [Pick([c], -1), Pick([c], -1)];
    } else {
      CutPageAborts(s, st, f, bucket);
      picks := [Pick([f], -1)];
    }
  }

  /** One call of sample_page in the window can go wrong exactly when there is a hazard. */
  lemma OneCallIff(s: State, st: Store, f: FrameId, bucket: GlobalAddress -> nat)
    requires AtWindow(s, st, f) && Hashes(s, bucket)
    ensures (exists picks | |picks| < MAX_TRIES :: Call(Window(s, f), Moved(s, f), picks, bucket).Wrong?)
            <==> Hazard(s, f)
  {
    if Hazard(s, f) {
      var picks := HazardGoesWrong(s, st, f, bucket);
    } else {
      forall picks | |picks| < MAX_TRIES ensures !Call(Window(s, f), Moved(s, f), picks, bucket).Wrong? {
        var c, g, i, b, s1 := SafeCall(s, st, f, bucket, picks);
      }
    }
  }

  // --- One cooling away from a hazard ---

  /** A frame without swizzled children hangs from the only set bit of a page. */
  ghost predicate LastChild(s: State, page: Page, j: nat) {
    && page.node.Inner? && j < |page.node.children| && page.bitmap == {j} && page.node.children[j].Tagged?
    && page.node.children[j].frame < |s.frames| && s.frames[page.node.children[j].frame].bitmap == {}
  }

  /** Cooling one page makes the window dangerous: the last swizzled child of a moved page, or the
      last one below the cut. */
  ghost predicate NearHazard(s: State, f: FrameId)
    requires f < |s.frames| && NodeOk(s.frames[f].node) && s.frames[f].node.Full() && s.frames[f].node.Inner?
  {
    || (exists c: FrameId, j: nat :: c < |s.frames| && Tagged(c) in Moved(s, f) && LastChild(s, s.frames[c], j))
    || (s.frames[f].parent.InPool? && exists j: nat :: LastChild(s, Cut(s.frames[f]), j))
  }

  lemma MovesBits(s: State, st: Store, f: FrameId, c: FrameId, g: FrameId, i: nat, b: nat, s1: State, x: FrameId)
    requires Moves(s, st, f, c, g, i, b, s1) && x < |s.frames|
    ensures x < |s1.frames| && s1.frames[x].bitmap == if x == g then s.frames[x].bitmap - {i} else s.frames[x].bitmap
  {
    hide AtWindow;
    hide Kept;
    SampledBits(s, c, g, i, b, x);
  }

  lemma SampledBits(s: State, c: FrameId, g: FrameId, i: nat, b: nat, x: FrameId)
    requires c < |s.frames| && g < |s.frames| && c != g && Booked(s, b) && x < |s.frames|
    requires s.frames[g].node.Inner? && i < |s.frames[g].node.children|
    ensures var s1 := Sampled(s, c, g, i, b);
            x < |s1.frames| && s1.frames[x].bitmap == if x == g then s.frames[x].bitmap - {i} else s.frames[x].bitmap
  {
  }

  lemma LastOf(s: State, page: Page, i: nat, c: FrameId)
    requires page.node.Inner? && i < |page.node.children| && page.node.children[i] == Tagged(c)
    requires c < |s.frames| && s.frames[c].bitmap == {} && page.bitmap != {} && page.bitmap - {i} == {}
    ensures LastChild(s, page, i)
  {
    assert page.bitmap == {i};
  }

  lemma MovesNear(s: State, st: Store, f: FrameId, c: FrameId, g: FrameId, i: nat, b: nat, s1: State)
    requires Moves(s, st, f, c, g, i, b, s1) && !Hazard(s, f) && Hazard(s1, f)
    ensures NearHazard(s, f)
  {
    hide Sampled;
    hide LastChild;
    MovesBits(s, st, f, c, g, i, b, s1, f);
    if x: FrameId :| x < |s1.frames| && Tagged(x) in Moved(s1, f) && s1.frames[x].bitmap == {} {
      MovesBits(s, st, f, c, g, i, b, s1, x);
      LastOf(s, s.frames[x], i, c);
    } else {
      LastOf(s, Cut(s.frames[f]), i, c);
    }
  }

  /** Any resident frame with no swizzled child may be the one a safe call cools. */
  lemma CoolsNext(s: State, st: Store, f: FrameId, bucket: GlobalAddress -> nat, d: FrameId)
    returns (g: FrameId, i: nat, b: nat, s1: State)
    requires AtWindow(s, st, f) && Hashes(s, bucket) && !Hazard(s, f)
    requires InTree(s, d) && d != f && s.frames[d].bitmap == {} && s.frames[d].parent.InPool?
    ensures Moves(s, st, f, d, g, i, b, s1)
    ensures Call(Window(s, f), Moved(s, f), [Pick([d], -1)], bucket) == Returned(Window(s1, f))
  {
    hide Moves;
    var pick, c := Pick([d], -1), 0;
    assert Walked(Window(s, f), pick);
    b := bucket(s.frames[d].remote);
    c, g, i, s1 := SafePass(s, st, f, bucket, pick);
  }

  /** The last swizzled child of frame x, below the cut if x is the cut page, is cooled. */
  lemma LastChildCools(s: State, st: Store, f: FrameId, bucket: GlobalAddress -> nat, x: FrameId, j: nat)
    returns (picks: seq<Pick>, s1: State)
    requires AtWindow(s, st, f) && Hashes(s, bucket) && !Hazard(s, f)
    requires InTree(s, x) && LastChild(s, Window(s, f).frames[x], j)
             && s.frames[Window(s, f).frames[x].node.children[j].frame].bitmap == {}
    ensures AtWindow(s1, st, f) && Kept(s, s1, st, TheCut(s, f)) && Moved(s1, f) == Moved(s, f) && |s1.cool| == |s.cool|
    ensures |picks| < MAX_TRIES && Call(Window(s, f), Moved(s, f), picks, bucket) == Returned(Window(s1, f))
    ensures x < |s1.frames| && Window(s1, f).frames[x].bitmap == {}
  {
    var d := Window(s, f).frames[x].node.children[j].frame;
    BitLeads(s, st, TheCut(s, f), x, j);
    assert FrameSound(s, x) && SlotSound(s, x, j);
    var g, i, b;
    g, i, b, s1 := CoolsNext(s, st, f, bucket, d);
    picks := [Pick([d], -1)];
    assert SlotSound(s, x, i);
    OneSlot(s, x, i, j);
    MovesBits(s, st, f, d, g, i, b, s1, x);
  }

  // --- Two calls, as in sample_multiple_pages, and any number of them ---

  lemma LastCall(s: State, moved: seq<Slot>, picks: seq<Pick>, bucket: GlobalAddress -> nat)
    ensures Calls(s, moved, [picks], bucket).Wrong? <==> Call(s, moved, picks, bucket).Wrong?
  {
    assert [picks][1..] == [];
  }

  /** One call cools the page that stands between the window and a hazard. */
  lemma NearCools(s: State, st: Store, f: FrameId, bucket: GlobalAddress -> nat) returns (picks: seq<Pick>, s1: State)
    requires AtWindow(s, st, f) && Hashes(s, bucket) && !Hazard(s, f) && NearHazard(s, f)
    ensures AtWindow(s1, st, f) && Moved(s1, f) == Moved(s, f) && Hashes(s1, bucket) && Hazard(s1, f)
    ensures |picks| < MAX_TRIES && Call(Window(s, f), Moved(s, f), picks, bucket) == Returned(Window(s1, f))
  {
    hide SampleSteps.Sampled;
    hide Call;
    if c: FrameId, j: nat :| c < |s.frames| && Tagged(c) in Moved(s, f) && LastChild(s, s.frames[c], j) {
      MovedIsResident(s, st, f, c);
      picks, s1 := LastChildCools(s, st, f, bucket, c, j);
    } else {
      var j: nat :| LastChild(s, Cut(s.frames[f]), j);
      picks, s1 := LastChildCools(s, st, f, bucket, f, j);
    }
  }

  lemma NearGoesWrong(s: State, st: Store, f: FrameId, bucket: GlobalAddress -> nat) returns (calls: seq<seq<Pick>>)
    requires AtWindow(s, st, f) && Hashes(s, bucket) && !Hazard(s, f) && NearHazard(s, f)
    ensures |calls| == 2 && WithinTries(calls) && Calls(Window(s, f), Moved(s, f), calls, bucket).Wrong?
  {
    hide Hazard;
    hide NearHazard;
    hide Call;
    var first, s1 := NearCools(s, st, f, bucket);
    var second := HazardGoesWrong(s1, st, f, bucket);
    LastCall(Window(s1, f), Moved(s, f), second, bucket);
    calls := [first, second];
    assert calls[1..] == [second];
  }

  /** A moved frame is another resident frame, below the cut page. */
  lemma MovedIsResident(s: State, st: Store, f: FrameId, c: FrameId)
    requires AtWindow(s, st, f) && Tagged(c) in Moved(s, f)
    ensures InTree(s, c) && c != f && s.frames[c].parent == InPool(f) && Window(s, f).frames[c] == s.frames[c]
    ensures s.frames[c].node.Level() < s.frames[f].node.Level()
  {
    var n := s.frames[f].node;
    var o :| 0 <= o < |Moved(s, f)| && Moved(s, f)[o] == Tagged(c);
    assert n.children[|Split(n).left.children| + o] == Tagged(c);
    ChildOf(s, f, |Split(n).left.children| + o);
  }

  /** The two calls of one sample_multiple_pages can go wrong exactly when there is a hazard, or one
      cooling makes one. */
  lemma TwoCallsIff(s: State, st: Store, f: FrameId, bucket: GlobalAddress -> nat)
    requires AtWindow(s, st, f) && Hashes(s, bucket)
    ensures (exists calls | |calls| == 2 && WithinTries(calls) ::
             Calls(Window(s, f), Moved(s, f), calls, bucket).Wrong?)
            <==> Hazard(s, f) || NearHazard(s, f)
  {
    if Hazard(s, f) {
      var picks := HazardGoesWrong(s, st, f, bucket);
      assert WithinTries([picks, []]) && Calls(Window(s, f), Moved(s, f), [picks, []], bucket).Wrong?;
    } else if NearHazard(s, f) {
      var calls := NearGoesWrong(s, st, f, bucket);
    } else {
      forall calls | |calls| == 2 && WithinTries(calls)
        ensures !Calls(Window(s, f), Moved(s, f), calls, bucket).Wrong?
      {
        TwoCallsSafe(s, st, f, bucket, calls);
      }
    }
  }

  lemma TwoCallsSafe(s: State, st: Store, f: FrameId, bucket: GlobalAddress -> nat, calls: seq<seq<Pick>>)
    requires AtWindow(s, st, f) && Hashes(s, bucket) && !Hazard(s, f) && !NearHazard(s, f) && |calls| == 2
    ensures !Calls(Window(s, f), Moved(s, f), calls, bucket).Wrong?
  {
    var c, g, i, b, s1 := SafeCall(s, st, f, bucket, calls[0]);
    if !Call(Window(s, f), Moved(s, f), calls[0], bucket).Unfinished? {
      if Hazard(s1, f) {
        MovesNear(s, st, f, c, g, i, b, s1);
      }
      var c', g', i', b', s2 := SafeCall(s1, st, f, bucket, calls[1]);
      assert calls[1..] == [calls[1]];
      LastCall(Window(s1, f), Moved(s, f), calls[1], bucket);
    }
  }

  /** One turn of try_get_empty_page: local_page_set is empty, the probe from bucket start finds nothing,
      and the two calls that follow go wrong. */
  ghost predicate TurnGoesWrong(w: State, moved: seq<Slot>, start: nat, calls: seq<seq<Pick>>,
                                bucket: GlobalAddress -> nat) {
    && w.dynamic && w.free == [] && ProbedEmpty(w.cool, start, start + PROBING_LENGTH)
    && |calls| == 2 && WithinTries(calls) && Calls(w, moved, calls, bucket).Wrong?
  }

  /** A turn can go wrong exactly when no frame is at hand and its two calls can. */
  lemma OneTurnIff(s: State, st: Store, f: FrameId, bucket: GlobalAddress -> nat)
    requires AtWindow(s, st, f) && Hashes(s, bucket)
    ensures (exists start, calls :: TurnGoesWrong(Window(s, f), Moved(s, f), start, calls, bucket))
            <==> NothingAtHand(Window(s, f)) && (Hazard(s, f) || NearHazard(s, f))
  {
    TwoCallsIff(s, st, f, bucket);
    var w, moved := Window(s, f), Moved(s, f);
    if NothingAtHand(w) && (Hazard(s, f) || NearHazard(s, f)) {
      var start: nat, stop: nat :| stop == start + PROBING_LENGTH && ProbedEmpty(w.cool, start, stop);
      var calls :| |calls| == 2 && WithinTries(calls) && Calls(w, moved, calls, bucket).Wrong?;
      assert TurnGoesWrong(w, moved, start, calls, bucket);
    }
  }

  /** Something the sampler could harm sooner or later: a moved child is swizzled, or the cut page
      hangs from a frame of the pool. */
  ghost predicate Exposed(s: State, f: FrameId)
    requires f < |s.frames| && NodeOk(s.frames[f].node) && s.frames[f].node.Full() && s.frames[f].node.Inner?
  {
    (exists c: FrameId :: Tagged(c) in Moved(s, f)) || s.frames[f].parent.InPool?
  }

  /** Below every resident frame there is one without swizzled children. */
  lemma {:induction false} FindBottom(s: State, st: Store, f: FrameId, x: FrameId) returns (d: FrameId)
    requires AtWindow(s, st, f) && InTree(s, x) && x != f && s.frames[x].parent.InPool?
    requires s.frames[x].node.Level() < s.frames[f].node.Level()
    ensures InTree(s, d) && d != f && s.frames[d].bitmap == {} && s.frames[d].parent.InPool?
    decreases s.frames[x].node.Level()
  {
    d := x;
    if s.frames[x].bitmap != {} {
      var j :| j in s.frames[x].bitmap;
      BitLeads(s, st, TheCut(s, f), x, j);
      d := FindBottom(s, st, f, s.frames[x].node.children[j].frame);
    }
  }

  /** While there is no hazard yet, an exposed window has a frame that can be cooled. */
  lemma NextToCool(s: State, st: Store, f: FrameId) returns (d: FrameId)
    requires AtWindow(s, st, f) && !Hazard(s, f) && Exposed(s, f)
    ensures InTree(s, d) && d != f && s.frames[d].bitmap == {} && s.frames[d].parent.InPool?
  {
    if c: FrameId :| Tagged(c) in Moved(s, f) {
      MovedIsResident(s, st, f, c);
      d := FindBottom(s, st, f, c);
    } else {
      var j :| j in Cut(s.frames[f]).bitmap;
      BitLeads(s, st, TheCut(s, f), f, j);
      d := FindBottom(s, st, f, Window(s, f).frames[f].node.children[j].frame);
    }
  }

  /** Cooling the resident frames one by one ends in a hazard. */
  lemma {:induction false} ExposedGoesWrong(s: State, st: Store, f: FrameId, bucket: GlobalAddress -> nat)
    returns (calls: seq<seq<Pick>>)
    requires AtWindow(s, st, f) && Hashes(s, bucket) && Exposed(s, f)
    ensures WithinTries(calls) && Calls(Window(s, f), Moved(s, f), calls, bucket).Wrong?
    decreases Residents(s)
  {
    hide Call, Hazard;
    if Hazard(s, f) {
      var picks := HazardGoesWrong(s, st, f, bucket);
      return [picks];
    }
    var d := NextToCool(s, st, f);
    var g, i, b, s1 := CoolsNext(s, st, f, bucket, d);
    var rest := ExposedGoesWrong(s1, st, f, bucket);
    calls := [[Pick([d], -1)]] + rest;
    assert calls[1..] == rest;
  }

  lemma {:induction false} ShelteredIsSafe(s: State, st: Store, f: FrameId, bucket: GlobalAddress -> nat,
                                           calls: seq<seq<Pick>>)
    requires AtWindow(s, st, f) && Hashes(s, bucket) && !Exposed(s, f)
    ensures !Calls(Window(s, f), Moved(s, f), calls, bucket).Wrong?
    decreases |calls|
  {
    if calls != [] {
      var c, g, i, b, s1 := SafeCall(s, st, f, bucket, calls[0]);
      if !Call(Window(s, f), Moved(s, f), calls[0], bucket).Unfinished? {
        ShelteredIsSafe(s1, st, f, bucket, calls[1..]);
      }
    }
  }

  /** Some number of calls can go wrong exactly when a moved child is swizzled or the cut page hangs
      from a frame of the pool. */
  lemma AnyCallsIff(s: State, st: Store, f: FrameId, bucket: GlobalAddress -> nat)
    requires AtWindow(s, st, f) && Hashes(s, bucket)
    ensures (exists calls | WithinTries(calls) :: Calls(Window(s, f), Moved(s, f), calls, bucket).Wrong?)
            <==> Exposed(s, f)
  {
    if Exposed(s, f) {
      var calls := ExposedGoesWrong(s, st, f, bucket);
    } else {
      forall calls | WithinTries(calls) ensures !Calls(Window(s, f), Moved(s, f), calls, bucket).Wrong? {
        ShelteredIsSafe(s, st, f, bucket, calls);
      }
    }
  }
}
