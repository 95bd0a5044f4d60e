/** The memo as the object the loader updates (internal/checks/loader.go): the sections
    of do and store that run under the lock, each proved to be the step Memo gives it,
    and the batch writer that stores a result for every ref it asked about. */
module MemoCode {
  import opened Text
  import opened Memo
  import opened MemoLaws

  class Table {
    var entries: map<Key, Id>
    var heap: seq<Entry>

    constructor ()
      ensures entries == map[] && heap == []
    {
      entries := map[];
      heap := [];
    }

    /** The state of the system the table and the calls make up. */
    ghost function With(calls: map<Call, Calling>): State
      reads this
    {
      State(entries, heap, calls)
    }

    /** Every entry the map has is complete: no call of do is running. */
    ghost predicate Idle()
      reads this
    {
      Settled(With(map[]))
    }

    ghost function Answers(): map<Key, Answer>
      reads this
    {
      Published(With(map[]))
    }

    /** The locked section do begins a round with. */
    method LookOrMake(c: Call, key: Key, ghost calls: map<Call, Calling>) returns (e: Id, waiting: bool)
      requires c in calls && calls[c].key == key && calls[c].pc == Start
      modifies this
      ensures
        var pc := if waiting then Waiting(e) else Fetching(e);
        Next(old(With(calls)), LookUp(c)) == Some(With(calls[c := calls[c].(pc := pc)]))
      ensures waiting == (key in old(entries)) && key in entries && entries[key] == e
      ensures if waiting then heap == old(heap) && entries == old(entries)
              else e == |old(heap)| && heap == old(heap) + [Entry(key, Some(c), Zero, 0, false)] && entries == old(entries)[key := e]
    {
      waiting := key in entries;
      if waiting {
        e := entries[key];
      } else {
        e := |heap|;
        heap := heap + [Entry(key, Some(c), Zero, 0, false)];
        entries := entries[key := e];
      }
    }

    /** The locked delete of a call whose context ended. */
    method Delete(ghost c: Call, key: Key, ghost calls: map<Call, Calling>)
      requires c in calls && calls[c].key == key && calls[c].pc.Deleting?
      modifies this
      ensures
        var me := calls[c];
        Next(old(With(calls)), Step.Delete(c)) == Some(With(calls[c := me.(pc := Abandoning(me.pc.e, me.pc.a))]))
      ensures entries == old(entries) - {key} && heap == old(heap)
    {
      entries := entries - {key};
    }

    /** The flag that sends the waiters round again. */
    method SetAbandoned(ghost c: Call, e: Id, ghost calls: map<Call, Calling>)
      requires c in calls && calls[c].pc.Abandoning? && calls[c].pc.e == e && e < |heap|
      modifies this
      ensures
        var me := calls[c];
        Next(old(With(calls)), Step.SetAbandoned(c)) == Some(With(calls[c := me.(pc := ClosingAbandoned(e, me.pc.a))]))
      ensures entries == old(entries) && heap == old(heap)[e := old(heap)[e].(abandoned := true)]
    {
      heap := heap[e := heap[e].(abandoned := true)];
    }

    /** The answer a call keeps. */
    method SetAnswer(ghost c: Call, e: Id, a: Answer, ghost calls: map<Call, Calling>)
      requires c in calls && calls[c].pc == Keeping(e, a) && e < |heap|
      modifies this
      ensures Next(old(With(calls)), Step.SetAnswer(c)) == Some(With(calls[c := calls[c].(pc := ClosingKept(e, a))]))
      ensures entries == old(entries) && heap == old(heap)[e := old(heap)[e].(answer := a)]
    {
      heap := heap[e := heap[e].(answer := a)];
    }

    /** The close that lets the waiters go, in either case. */
    method Close(ghost c: Call, e: Id, ghost calls: map<Call, Calling>)
      requires c in calls && e < |heap|
      requires (calls[c].pc.ClosingAbandoned? || calls[c].pc.ClosingKept?) && calls[c].pc.e == e
      modifies this
      ensures
        var me := calls[c];
        var via := if me.pc.ClosingKept? then Own(e) else Dropped(e);
        Next(old(With(calls)), Step.Close(c)) == Some(With(calls[c := me.(pc := Returned(me.pc.a, via))]))
      ensures entries == old(entries) && heap == old(heap)[e := old(heap)[e].(closes := old(heap)[e].closes + 1)]
    {
      heap := heap[e := heap[e].(closes := heap[e].closes + 1)];
    }

    /** store. */
    method Store(key: Key, a: Answer, ghost calls: map<Call, Calling>)
      modifies this
      ensures Next(old(With(calls)), Step.Store(key, a)) == Some(With(calls))
      ensures old(Idle()) ==> Idle() && Answers() == First(old(Answers()), key, a)
    {
      StoreAnswers(With(map[]), key, a);
      hide Published, Settled;
      if key in entries {
        return;
      }
      heap := heap + [Entry(key, None, a, 1, false)];
      entries := entries[key := |heap| - 1];
    }

    /** do when no other call runs: the answer the table has, or the one the fetch
        returns, which is kept unless the fetch failed under an ended context. leaves says
        which of two ready channels the select of a call whose context ended takes. What it
        does is the run of the steps of a lone call. */
    method Do(key: Key, ended: bool, leaves: bool, fetched: Answer) returns (a: Answer)
      requires Idle()
      modifies this
      ensures Idle()
      ensures
        if key in old(Answers()) then
          a == (if ended && leaves then Zero else old(Answers())[key]) && Answers() == old(Answers())
        else
          && a == fetched
          && Answers() == if fetched.err.Some? && ended then old(Answers()) else old(Answers())[key := fetched]
      ensures exists via, calls :: calls == map[0 := Calling(key, ended, Returned(a, via), 0, {})]
                && RunFrom(old(With(map[])), LoneSteps(key, key in old(Answers()), ended, leaves, fetched)) == Some(With(calls))
    {
      hide Next, Published, RunFrom, LoneSteps, LoneRest, Settled, Arrived;
      ghost var s0 := With(map[]);
      Complete1(s0, key);
      ghost var me := Calling(key, ended, Start, 0, {});
      var e, waiting := LookOrMake(0, key, map[0 := me]);
      if waiting {
        a := if ended && leaves then Zero else heap[e].answer;
        LoneHit(s0, key, ended, leaves, fetched, e);
        ghost var via := if ended && leaves then GaveUp else Shared(e);
        ghost var calls := map[0 := me.(pc := Returned(a, via))];
        assert With(calls) == Alone(s0, me.(pc := Returned(a, via)));
        return;
      }
      ghost var s1 := With(map[0 := me.(pc := Fetching(e))]);
      OnlyOne(me, me.(pc := Fetching(e)));
      ArrivedIs(s0, key, ended);
      LoneMiss(s0, s1, key, ended, leaves, fetched, e);
      a := fetched;
      Settle(key, ended, e, a);
      assert heap == s0.heap + [heap[e]];
      Appended(s0, key, heap[e]);
      if a.err.Some? && ended {
        assert entries == s0.entries;
        assert With(map[]) == s0.(heap := s0.heap + [heap[e]]);
      } else {
        assert With(map[]) == s0.(heap := s0.heap + [heap[e]], entries := s0.entries[key := |s0.heap|]);
      }
    }

    /** What a call does with what its fetch returned. */
    method Settle(key: Key, ended: bool, e: Id, a: Answer)
      requires e < |heap|
      modifies this
      ensures |heap| == |old(heap)| && forall i :: 0 <= i < |heap| && i != e ==> heap[i] == old(heap)[i]
      ensures
        if a.err.Some? && ended then
          && entries == old(entries) - {key} && heap[e] == old(heap)[e].(abandoned := true, closes := old(heap)[e].closes + 1)
          && RunFrom(old(With(map[0 := Calling(key, ended, Deleting(e, a), 0, {})])), [Step.Delete(0), Step.SetAbandoned(0), Step.Close(0)])
             == Some(With(map[0 := Calling(key, ended, Returned(a, Dropped(e)), 0, {})]))
        else
          && entries == old(entries) && heap[e] == old(heap)[e].(answer := a, closes := old(heap)[e].closes + 1)
          && RunFrom(old(With(map[0 := Calling(key, ended, Keeping(e, a), 0, {})])), [Step.SetAnswer(0), Step.Close(0)])
             == Some(With(map[0 := Calling(key, ended, Returned(a, Own(e)), 0, {})]))
    {
      hide Next, RunFrom;
      if a.err.Some? && ended {
        Drop(key, e, a);
      } else {
        Keep(key, ended, e, a);
      }
    }

    /** A call that gives its entry up, from the delete to the close. */
    method Drop(key: Key, e: Id, ghost a: Answer)
      requires e < |heap|
      modifies this
      ensures entries == old(entries) - {key}
      ensures heap == old(heap)[e := old(heap)[e].(abandoned := true, closes := old(heap)[e].closes + 1)]
      ensures RunFrom(old(With(map[0 := Calling(key, true, Deleting(e, a), 0, {})])), [Step.Delete(0), Step.SetAbandoned(0), Step.Close(0)])
              == Some(With(map[0 := Calling(key, true, Returned(a, Dropped(e)), 0, {})]))
    {
      hide Next, RunFrom;
      ghost var s0 := With(map[0 := Calling(key, true, Deleting(e, a), 0, {})]);
      Delete(0, key, map[0 := Calling(key, true, Deleting(e, a), 0, {})]);
      ghost var s1 := With(map[0 := Calling(key, true, Abandoning(e, a), 0, {})]);
      OnlyOne(Calling(key, true, Deleting(e, a), 0, {}), Calling(key, true, Abandoning(e, a), 0, {}));
      SetAbandoned(0, e, map[0 := Calling(key, true, Abandoning(e, a), 0, {})]);
      ghost var s2 := With(map[0 := Calling(key, true, ClosingAbandoned(e, a), 0, {})]);
      OnlyOne(Calling(key, true, Abandoning(e, a), 0, {}), Calling(key, true, ClosingAbandoned(e, a), 0, {}));
      Close(0, e, map[0 := Calling(key, true, ClosingAbandoned(e, a), 0, {})]);
      ghost var s3 := With(map[0 := Calling(key, true, Returned(a, Dropped(e)), 0, {})]);
      OnlyOne(Calling(key, true, ClosingAbandoned(e, a), 0, {}), Calling(key, true, Returned(a, Dropped(e)), 0, {}));
      ThreeSteps(s0, s1, s2, s3, Step.Delete(0), Step.SetAbandoned(0), Step.Close(0));
    }

    /** A call that keeps its answer, from the write to the close. */
    method Keep(ghost key: Key, ghost ended: bool, e: Id, a: Answer)
      requires e < |heap|
      modifies this
      ensures entries == old(entries)
      ensures heap == old(heap)[e := old(heap)[e].(answer := a, closes := old(heap)[e].closes + 1)]
      ensures RunFrom(old(With(map[0 := Calling(key, ended, Keeping(e, a), 0, {})])), [Step.SetAnswer(0), Step.Close(0)])
              == Some(With(map[0 := Calling(key, ended, Returned(a, Own(e)), 0, {})]))
    {
      hide Next, RunFrom;
      ghost var s0 := With(map[0 := Calling(key, ended, Keeping(e, a), 0, {})]);
      SetAnswer(0, e, a, map[0 := Calling(key, ended, Keeping(e, a), 0, {})]);
      ghost var s1 := With(map[0 := Calling(key, ended, ClosingKept(e, a), 0, {})]);
      OnlyOne(Calling(key, ended, Keeping(e, a), 0, {}), Calling(key, ended, ClosingKept(e, a), 0, {}));
      Close(0, e, map[0 := Calling(key, ended, ClosingKept(e, a), 0, {})]);
      ghost var s2 := With(map[0 := Calling(key, ended, Returned(a, Own(e)), 0, {})]);
      OnlyOne(Calling(key, ended, ClosingKept(e, a), 0, {}), Calling(key, ended, Returned(a, Own(e)), 0, {}));
      TwoSteps(s0, s1, s2, Step.SetAnswer(0), Step.Close(0));
    }
  }

  lemma ArrivedIs(s: State, key: Key, ended: bool)
    ensures Arrived(s, key, ended) == s.(calls := map[0 := Calling(key, ended, Start, 0, {})])
  {
  }

  lemma OnlyOne(was: Calling, now: Calling)
    ensures map[0 := was][0 := now] == map[0 := now]
  {
  }

  lemma TwoSteps(s: State, t: State, u: State, a: Step, b: Step)
    requires Next(s, a) == Some(t) && Next(t, b) == Some(u)
    ensures RunFrom(s, [a, b]) == Some(u)
  {
    hide Next;
    RunCons(t, b, u, []);
    RunCons(s, a, t, [b]);
    assert [b] + [] == [b] && [a] + [b] == [a, b];
  }

  lemma ThreeSteps(s: State, t: State, u: State, v: State, a: Step, b: Step, c: Step)
    requires Next(s, a) == Some(t) && Next(t, b) == Some(u) && Next(u, c) == Some(v)
    ensures RunFrom(s, [a, b, c]) == Some(v)
  {
    hide Next;
    TwoSteps(t, u, v, b, c);
    RunCons(s, a, t, [b, c]);
    assert [a] + [b, c] == [a, b, c];
  }

  // ---- a call alone, as a run ----

  /** The state after some steps taken from a state. */
  function RunFrom(s: State, steps: seq<Step>): Option<State>
    decreases |steps|
  {
    if steps == [] then Some(s)
    else
      match Next(s, steps[0])
      case None => None
      case Some(t) => RunFrom(t, steps[1..])
  }

  lemma {:induction false} RunFromRun(steps: seq<Step>, more: seq<Step>)
    requires Run(steps).Some?
    ensures Run(steps + more) == RunFrom(Run(steps).value, more)
    decreases |more|
  {
    hide Next;
    if more == [] {
      assert steps + more == steps;
    } else {
      RunLast(steps, more[0]);
      assert steps + more == (steps + [more[0]]) + more[1..];
      if Run(steps + [more[0]]).Some? {
        RunFromRun(steps + [more[0]], more[1..]);
      } else {
        NoRun(steps + [more[0]], more[1..]);
      }
    }
  }

  lemma {:induction false} NoRun(steps: seq<Step>, more: seq<Step>)
    requires Run(steps).None?
    ensures Run(steps + more).None?
    decreases |more|
  {
    hide Next;
    if more == [] {
      assert steps + more == steps;
    } else {
      var n := |more| - 1;
      NoRun(steps, more[..n]);
      assert (steps + more)[..|steps + more| - 1] == steps + more[..n];
    }
  }

  lemma RunCons(s: State, step: Step, t: State, steps: seq<Step>)
    requires Next(s, step) == Some(t)
    ensures RunFrom(s, [step] + steps) == RunFrom(t, steps)
  {
    hide Next;
    assert ([step] + steps)[1..] == steps;
  }

  /** The steps of a call nobody else runs beside: it arrives, its context ends or not, and
      it looks its key up; then it reads what is there or leaves, or it fetches and drops or
      keeps what came back. */
  function LoneSteps(key: Key, known: bool, ended: bool, leaves: bool, fetched: Answer): seq<Step> {
    [Arrive(0, key)] + (if ended then [Cancel(0)] else []) + ([LookUp(0)] + LoneRest(known, ended, leaves, fetched))
  }

  function LoneRest(known: bool, ended: bool, leaves: bool, fetched: Answer): seq<Step> {
    if known then if ended && leaves then [GiveUp(0)] else [Wake(0), ReadEntry(0)]
    else
      [FetchReturns(0, fetched), Decide(0)]
      + if fetched.err.Some? && ended then [Delete(0), SetAbandoned(0), Close(0)] else [SetAnswer(0), Close(0)]
  }

  function Alone(s: State, me: Calling): State {
    s.(calls := map[0 := me])
  }

  function Arrived(s: State, key: Key, ended: bool): State {
    Alone(s, Calling(key, ended, Start, 0, {}))
  }

  lemma LoneStart(s: State, key: Key, known: bool, ended: bool, leaves: bool, fetched: Answer)
    requires s.calls == map[]
    ensures RunFrom(s, LoneSteps(key, known, ended, leaves, fetched)) ==
            RunFrom(Arrived(s, key, ended), [LookUp(0)] + LoneRest(known, ended, leaves, fetched))
  {
    hide Next, RunFrom, LoneRest;
    var begun := Arrived(s, key, false);
    var rest := [LookUp(0)] + LoneRest(known, ended, leaves, fetched);
    LoneArrives(s, key);
    if ended {
      RunCons(begun, Cancel(0), Arrived(s, key, true), rest);
      RunCons(s, Arrive(0, key), begun, [Cancel(0)] + rest);
      assert LoneSteps(key, known, ended, leaves, fetched) == [Arrive(0, key)] + ([Cancel(0)] + rest);
    } else {
      RunCons(s, Arrive(0, key), begun, rest);
      assert LoneSteps(key, known, ended, leaves, fetched) == [Arrive(0, key)] + rest;
    }
  }

  lemma LoneArrives(s: State, key: Key)
    requires s.calls == map[]
    ensures Next(s, Arrive(0, key)) == Some(Arrived(s, key, false))
    ensures Next(Arrived(s, key, false), Cancel(0)) == Some(Arrived(s, key, true))
  {
    hide CallStep;
    assert s.calls[0 := Calling(key, false, Start, 0, {})] == map[0 := Calling(key, false, Start, 0, {})];
    OnlyOne(Calling(key, false, Start, 0, {}), Calling(key, true, Start, 0, {}));
  }

  lemma LoneHit(s: State, key: Key, ended: bool, leaves: bool, fetched: Answer, e: Id)
    requires s.calls == map[] && Settled(s) && key in s.entries && s.entries[key] == e
    ensures
      var left := ended && leaves;
      var pc := Returned(if left then Zero else s.heap[e].answer, if left then GaveUp else Shared(e));
      RunFrom(s, LoneSteps(key, true, ended, leaves, fetched)) == Some(Alone(s, Calling(key, ended, pc, 0, {})))
  {
    hide Next, RunFrom, LoneSteps, LoneRest, CallStep, Settled;
    var me := Calling(key, ended, Start, 0, {});
    LoneStart(s, key, true, ended, leaves, fetched);
    HitSteps(s, me, e);
    var waiting, woken := me.(pc := Waiting(e)), me.(pc := Woken(e));
    LoneRestIs(ended, leaves, fetched);
    if ended && leaves {
      var last := me.(pc := Returned(Zero, GaveUp));
      TwoSteps(Alone(s, me), Alone(s, waiting), Alone(s, last), LookUp(0), GiveUp(0));
      assert [LookUp(0)] + [GiveUp(0)] == [LookUp(0), GiveUp(0)];
    } else {
      var last := me.(pc := Returned(s.heap[e].answer, Shared(e)));
      ThreeSteps(Alone(s, me), Alone(s, waiting), Alone(s, woken), Alone(s, last), LookUp(0), Wake(0), ReadEntry(0));
      assert [LookUp(0)] + [Wake(0), ReadEntry(0)] == [LookUp(0), Wake(0), ReadEntry(0)];
    }
  }

  lemma LoneRestIs(ended: bool, leaves: bool, fetched: Answer)
    ensures LoneRest(true, ended, leaves, fetched) == if ended && leaves then [GiveUp(0)] else [Wake(0), ReadEntry(0)]
  {
  }

  /** The steps of a call alone that finds a complete entry. */
  lemma HitSteps(s: State, me: Calling, e: Id)
    requires Settled(s) && me.key in s.entries && s.entries[me.key] == e && me == Calling(me.key, me.cancelled, Start, 0, {})
    ensures e < |s.heap|
    ensures
      var waiting, woken := me.(pc := Waiting(e)), me.(pc := Woken(e));
      && Next(Alone(s, me), LookUp(0)) == Some(Alone(s, waiting))
      && Next(Alone(s, waiting), Wake(0)) == Some(Alone(s, woken))
      && Next(Alone(s, woken), ReadEntry(0)) == Some(Alone(s, me.(pc := Returned(s.heap[e].answer, Shared(e)))))
      && (me.cancelled ==> Next(Alone(s, waiting), GiveUp(0)) == Some(Alone(s, me.(pc := Returned(Zero, GaveUp)))))
  {
    var waiting, woken := me.(pc := Waiting(e)), me.(pc := Woken(e));
    OnlyOne(me, waiting);
    OnlyOne(waiting, woken);
    OnlyOne(woken, me.(pc := Returned(s.heap[e].answer, Shared(e))));
    OnlyOne(waiting, me.(pc := Returned(Zero, GaveUp)));
  }

  /** The steps of a call alone whose fetch returns. */
  lemma MissSteps(t: State, me: Calling, e: Id, a: Answer)
    requires me.pc == Fetching(e)
    ensures Next(Alone(t, me), FetchReturns(0, a)) == Some(Alone(t, me.(pc := Fetched(e, a))))
    ensures Next(Alone(t, me.(pc := Fetched(e, a))), Decide(0)) ==
            Some(Alone(t, me.(pc := if a.err.Some? && me.cancelled then Deleting(e, a) else Keeping(e, a))))
  {
    var now := me.(pc := Fetched(e, a));
    OnlyOne(me, now);
    OnlyOne(now, now.(pc := if a.err.Some? && me.cancelled then Deleting(e, a) else Keeping(e, a)));
  }

  /** A call that finds nothing, up to where it drops or keeps what its fetch returned. */
  lemma LoneMiss(s: State, t: State, key: Key, ended: bool, leaves: bool, fetched: Answer, e: Id)
    requires s.calls == map[] && t == Alone(t, Calling(key, ended, Fetching(e), 0, {}))
    requires Next(Arrived(s, key, ended), LookUp(0)) == Some(t)
    ensures
      var drops := fetched.err.Some? && ended;
      RunFrom(s, LoneSteps(key, false, ended, leaves, fetched)) ==
      RunFrom(Alone(t, Calling(key, ended, if drops then Deleting(e, fetched) else Keeping(e, fetched), 0, {})),
              if drops then [Delete(0), SetAbandoned(0), Close(0)] else [SetAnswer(0), Close(0)])
  {
    var me := Calling(key, ended, Fetching(e), 0, {});
    var drops := fetched.err.Some? && ended;
    var pc := if drops then Deleting(e, fetched) else Keeping(e, fetched);
    var rest := if drops then [Delete(0), SetAbandoned(0), Close(0)] else [SetAnswer(0), Close(0)];
    LoneStart(s, key, false, ended, leaves, fetched);
    MissSteps(t, me, e, fetched);
    hide Next, CallStep, RunFrom, LoneSteps;
    RunCons(Alone(t, me.(pc := Fetched(e, fetched))), Decide(0), Alone(t, me.(pc := pc)), rest);
    RunCons(t, FetchReturns(0, fetched), Alone(t, me.(pc := Fetched(e, fetched))), [Decide(0)] + rest);
    RunCons(Arrived(s, key, ended), LookUp(0), t, LoneRest(false, ended, leaves, fetched));
    assert [FetchReturns(0, fetched)] + ([Decide(0)] + rest) == LoneRest(false, ended, leaves, fetched);
  }

  /** A table no call is using. */
  predicate Settled(s: State) {
    forall k :: k in s.entries ==> s.entries[k] < |s.heap| && s.heap[s.entries[k]].closes == 1 && !s.heap[s.entries[k]].abandoned
  }

  lemma Complete1(s: State, key: Key)
    requires Settled(s)
    ensures key in s.entries ==> s.entries[key] < |s.heap|
    ensures key in Published(s) <==> key in s.entries
    ensures key in s.entries ==> Published(s)[key] == s.heap[s.entries[key]].answer
  {
  }

  lemma Appended(s: State, key: Key, e: Entry)
    requires Settled(s) && key !in s.entries
    ensures Settled(s.(heap := s.heap + [e])) && Published(s.(heap := s.heap + [e])) == Published(s)
    ensures e.closes == 1 && !e.abandoned ==>
              var t := s.(heap := s.heap + [e], entries := s.entries[key := |s.heap|]);
              Settled(t) && Published(t) == Published(s)[key := e.answer]
  {
  }

  /** A write-once map with one answer more, unless it has one for the key. */
  lemma StoreAnswers(s: State, key: Key, a: Answer)
    ensures Next(s, Step.Store(key, a)).Some?
    ensures Settled(s) ==>
              var t := Next(s, Step.Store(key, a)).value;
              Settled(t) && Published(t) == First(Published(s), key, a)
  {
  }

  function First(answers: map<Key, Answer>, key: Key, a: Answer): map<Key, Answer> {
    if key in answers then answers else answers[key := a]
  }

  /** What a batch request came back with: answers, an error for all of it, or answers
      and the errors of the refs it lost. */
  datatype Batch = Batch(results: map<Key, string>, failure: Failure)
  datatype Failure = NoFailure | Failed(err: string) | Partly(lost: map<Key, string>)

  /** The answer a batch gives one ref; a ref the results do not hold reads as none. */
  function BatchAnswer(b: Batch, ref: Key): Answer {
    var found := if ref in b.results then b.results[ref] else "";
    match b.failure
    case NoFailure => Answer(found, None)
    case Failed(err) => Answer("", Some(err))
    case Partly(lost) => if ref in lost then Answer("", Some(lost[ref])) else Answer(found, None)
  }

  /** A ref is lost when the batch failed as a whole, or names it among those it lost. */
  predicate Lost(b: Batch, ref: Key) {
    b.failure.Failed? || (b.failure.Partly? && ref in b.failure.lost)
  }

  /** A lost ref is answered with the error it was lost to and no value, every other one with
      what came back for it and no error. */
  lemma LostOrAnswered(b: Batch, ref: Key)
    ensures Lost(b, ref) ==>
              BatchAnswer(b, ref) == Answer("", Some(if b.failure.Failed? then b.failure.err else b.failure.lost[ref]))
    ensures !Lost(b, ref) && ref in b.results ==> BatchAnswer(b, ref) == Answer(b.results[ref], None)
    ensures !Lost(b, ref) && ref !in b.results ==> BatchAnswer(b, ref) == Answer("", None)
  {
  }

  /** What storing the batch's answers for some refs makes of the answers there were: each
      of the refs has one, its own from the batch unless it had one already, and no other
      key changes. */
  ghost predicate Stored(was: map<Key, Answer>, now: map<Key, Answer>, refs: seq<Key>, b: Batch) {
    && (forall k :: k in now <==> k in was || k in refs)
    && (forall k :: k in was ==> now[k] == was[k])
    && (forall k :: k in refs && k !in was ==> now[k] == BatchAnswer(b, k))
  }

  lemma StoredNext(was: map<Key, Answer>, now: map<Key, Answer>, refs: seq<Key>, i: nat, b: Batch)
    requires i < |refs| && Stored(was, now, refs[..i], b)
    ensures Stored(was, First(now, refs[i], BatchAnswer(b, refs[i])), refs[..i + 1], b)
  {
    hide BatchAnswer;
    assert refs[..i + 1] == refs[..i] + [refs[i]];
  }

  lemma NoneStored(was: map<Key, Answer>, refs: seq<Key>, b: Batch)
    ensures Stored(was, was, refs[..0], b) && refs[..|refs|] == refs
  {
  }

  // ---- a batch beside calls in flight ----

  /** The steps a batch takes. */
  function StoreSteps(refs: seq<Key>, b: Batch): (steps: seq<Step>)
    ensures |steps| == |refs|
  {
    if refs == [] then []
    else StoreSteps(refs[..|refs| - 1], b) + [Step.Store(refs[|refs| - 1], BatchAnswer(b, refs[|refs| - 1]))]
  }

  /** The state they lead to, from any state the calls of do may be in. */
  function StoreAll(s: State, refs: seq<Key>, b: Batch): State {
    if refs == [] then s
    else
      var ref := refs[|refs| - 1];
      Next(StoreAll(s, refs[..|refs| - 1], b), Step.Store(ref, BatchAnswer(b, ref))).value
  }

  lemma StoreNext(s: State, refs: seq<Key>, b: Batch)
    requires refs != []
    ensures
      var n := |refs| - 1;
      var step := Step.Store(refs[n], BatchAnswer(b, refs[n]));
      && Next(StoreAll(s, refs[..n], b), step) == Some(StoreAll(s, refs, b))
      && StoreSteps(refs, b) == StoreSteps(refs[..n], b) + [step]
  {
    hide BatchAnswer;
  }

  /** A batch is a run of steps of the system, so what holds in every state a run reaches
      holds with a batch among the calls. */
  lemma {:induction false} BatchIsSteps(steps: seq<Step>, refs: seq<Key>, b: Batch)
    requires Run(steps).Some?
    ensures Run(steps + StoreSteps(refs, b)) == Some(StoreAll(Run(steps).value, refs, b))
    decreases |refs|
  {
    hide *;
    if refs == [] {
      NothingStored(Run(steps).value, b);
      assert StoreSteps(refs, b) == [] && steps + [] == steps;
    } else {
      var n := |refs| - 1;
      BatchIsSteps(steps, refs[..n], b);
      StoreNext(Run(steps).value, refs, b);
      RunLast(steps + StoreSteps(refs[..n], b), Step.Store(refs[n], BatchAnswer(b, refs[n])));
      Grouped(steps, StoreSteps(refs[..n], b), [Step.Store(refs[n], BatchAnswer(b, refs[n]))]);
    }
  }

  lemma RunLast(steps: seq<Step>, step: Step)
    ensures Run(steps).Some? ==> Run(steps + [step]) == Next(Run(steps).value, step)
  {
    hide Next;
    assert (steps + [step])[..|steps|] == steps;
  }

  /** An entry store made. */
  predicate FromStore(s: State, k: Key, a: Answer) {
    k in s.entries && s.entries[k] < |s.heap| && s.heap[s.entries[k]] == Entry(k, None, a, 1, false)
  }

  /** What a batch leaves, whatever calls are in flight: no entry is replaced or touched,
      be it complete, fetching or about to be dropped, and no call moves; every ref that had
      none has one of the batch's own, complete; and no other key gets one. */
  lemma {:induction false} BatchLeaves(s: State, refs: seq<Key>, b: Batch)
    ensures
      var t := StoreAll(s, refs, b);
      && t.calls == s.calls && |s.heap| <= |t.heap| && t.heap[..|s.heap|] == s.heap
      && (forall k :: k in s.entries ==> k in t.entries && t.entries[k] == s.entries[k])
      && (forall k :: k in t.entries <==> k in s.entries || k in refs)
      && (forall k :: k in refs && k !in s.entries ==> FromStore(t, k, BatchAnswer(b, k)))
    decreases |refs|
  {
    hide BatchAnswer;
    if refs != [] {
      var n := |refs| - 1;
      BatchLeaves(s, refs[..n], b);
      var was, t := StoreAll(s, refs[..n], b), StoreAll(s, refs, b);
      hide StoreAll;
      StoreNext(s, refs, b);
      assert refs == refs[..n] + [refs[n]];
      forall k | k in refs && k !in s.entries ensures FromStore(t, k, BatchAnswer(b, k)) {
        if k in refs[..n] { assert FromStore(was, k, BatchAnswer(b, k)); }
      }
    }
  }

  /** On a table no call is using the batch answers every ref. */
  lemma {:induction false} BatchAnswers(s: State, refs: seq<Key>, b: Batch)
    requires Settled(s)
    ensures Settled(StoreAll(s, refs, b)) && Stored(Published(s), Published(StoreAll(s, refs, b)), refs, b)
    decreases |refs|
  {
    hide *;
    if refs == [] {
      NoneStored(Published(s), refs, b);
      NothingStored(s, b);
    } else {
      var n := |refs| - 1;
      BatchAnswers(s, refs[..n], b);
      StoreNext(s, refs, b);
      var was := StoreAll(s, refs[..n], b);
      StoreAnswers(was, refs[n], BatchAnswer(b, refs[n]));
      StoredNext(Published(s), Published(was), refs, n, b);
      assert refs[..n + 1] == refs;
    }
  }

  lemma NothingStored(s: State, b: Batch)
    ensures StoreAll(s, [], b) == s
  {
  }

  /** prefetchAdvisories, for the refs left after the ones the source does not cover, with
      any calls of do in flight: nothing is stored when the context ended; otherwise the
      batch stores its answer for every ref in turn. On a table no call is using every ref
      has an answer afterwards, its own from the batch unless it had one already, and no
      other key changes. */
  method PrefetchAdvisories(advisories: Table, refs: seq<Key>, b: Batch, ended: bool, ghost calls: map<Call, Calling>)
    modifies advisories
    ensures advisories.With(calls) ==
            if !b.failure.NoFailure? && ended then old(advisories.With(calls)) else StoreAll(old(advisories.With(calls)), refs, b)
    ensures old(advisories.Idle()) ==>
              && advisories.Idle()
              && if !b.failure.NoFailure? && ended then advisories.Answers() == old(advisories.Answers())
                 else Stored(old(advisories.Answers()), advisories.Answers(), refs, b)
  {
    hide *;
    WithCalls(advisories.With(map[]), calls, refs, b);
    TableIs(advisories, calls);
    if !b.failure.NoFailure? && ended {
      return;
    }
    ghost var was := advisories.With(map[]);
    NothingStored(was, b);
    assert refs[..0] == [];
    for i := 0 to |refs|
      invariant advisories.With(map[]) == StoreAll(was, refs[..i], b)
    {
      var ref := refs[i];
      var a: Answer;
      if b.failure.Partly? {
        if ref in b.failure.lost {
          a := Answer("", Some(b.failure.lost[ref]));
        } else {
          a := Answer(if ref in b.results then b.results[ref] else "", None);
        }
      } else if b.failure.Failed? {
        a := Answer("", Some(b.failure.err));
      } else {
        a := Answer(if ref in b.results then b.results[ref] else "", None);
      }
      BatchAnswerIs(b, ref, a);
      assert refs[..i + 1][..i] == refs[..i];
      StoreNext(was, refs[..i + 1], b);
      advisories.Store(ref, a, map[]);
    }
    assert refs[..|refs|] == refs;
    TableIs(advisories, calls);
    if Settled(was) { BatchAnswers(was, refs, b); }
  }

  /** The calls are no part of the table. */
  lemma TableIs(t: Table, calls: map<Call, Calling>)
    ensures t.With(calls) == t.With(map[]).(calls := calls)
    ensures t.Idle() <==> Settled(t.With(map[]))
    ensures t.Answers() == Published(t.With(map[]))
  {
  }

  lemma {:induction false} WithCalls(s: State, calls: map<Call, Calling>, refs: seq<Key>, b: Batch)
    ensures StoreAll(s.(calls := calls), refs, b) == StoreAll(s, refs, b).(calls := calls)
    decreases |refs|
  {
    hide BatchAnswer;
    if refs != [] { WithCalls(s, calls, refs[..|refs| - 1], b); }
  }

  lemma BatchAnswerIs(b: Batch, ref: Key, a: Answer)
    requires
      var found := if ref in b.results then b.results[ref] else "";
      a == match b.failure
           case NoFailure => Answer(found, None)
           case Failed(err) => Answer("", Some(err))
           case Partly(lost) => if ref in lost then Answer("", Some(lost[ref])) else Answer(found, None)
    ensures a == BatchAnswer(b, ref)
  {
  }
}
