/** How the calls of the memo end, read off the steps of a run alone: what a fetch that
    returned decides, where a published answer came from, and that a waiter whose context
    ended may leave (memo.do in internal/checks/loader.go). */
module MemoFates {
  import opened Text
  import opened Memo
  import opened MemoLaws

  // ---- runs, one step longer ----

  lemma RunSnoc(steps: seq<Step>, step: Step)
    ensures Run(steps + [step]).Some? ==> Run(steps).Some? && Next(Run(steps).value, step) == Run(steps + [step])
  {
    hide Next;
    assert (steps + [step])[..|steps|] == steps;
  }

  lemma RunCut(steps: seq<Step>)
    requires steps != []
    ensures Run(steps).Some? ==> Run(steps[..|steps| - 1]).Some? && Next(Run(steps[..|steps| - 1]).value, steps[|steps| - 1]) == Run(steps)
  {
    hide Next;
  }

  // ---- who arrived, and whose context ended ----

  lemma CallsStep(s: State, step: Step, c: Call)
    requires Next(s, step).Some?
    ensures
      var t := Next(s, step).value;
      && (c in t.calls <==> c in s.calls || (step.Arrive? && step.c == c))
      && (c in s.calls ==> t.calls[c].key == s.calls[c].key && (t.calls[c].cancelled <==> s.calls[c].cancelled || step == Cancel(c)))
      && (c !in s.calls && c in t.calls ==> t.calls[c].key == step.key && !t.calls[c].cancelled && step == Arrive(c, t.calls[c].key))
      && (step == Cancel(c) ==> c in s.calls)
      && (step.Arrive? ==> step.c !in s.calls)
  {
  }

  /** A call is known exactly when it arrived, under the key it arrived with, and its
      context counts as ended exactly when it ended. */
  lemma {:induction false} CallsAre(steps: seq<Step>, c: Call)
    requires Run(steps).Some?
    ensures
      var s := Run(steps).value;
      && (c in s.calls ==> Arrive(c, s.calls[c].key) in steps && (s.calls[c].cancelled <==> Cancel(c) in steps))
      && (c !in s.calls ==> Cancel(c) !in steps && forall k :: Arrive(c, k) !in steps)
      && forall k :: Arrive(c, k) in steps ==> c in s.calls && s.calls[c].key == k
  {
    hide Next;
    if steps != [] {
      var n := |steps| - 1;
      CallsAre(steps[..n], c);
      CallsStep(Run(steps[..n]).value, steps[n], c);
      assert steps == steps[..n] + [steps[n]];
    }
  }

  // ---- what a fetch decides ----

  predicate Drops(pc: Pc, e: Id, a: Answer) {
    pc == Deleting(e, a) || pc == Abandoning(e, a) || pc == ClosingAbandoned(e, a) || pc == Returned(a, Dropped(e))
  }

  predicate Keeps(pc: Pc, e: Id, a: Answer) {
    pc == Keeping(e, a) || pc == ClosingKept(e, a) || pc == Returned(a, Own(e))
  }

  /** Where a call is once its fetch returned: undecided, dropping what failed under its
      ended context, or keeping what came back otherwise. was says whether the context had
      ended when the fetch returned. */
  predicate Decided(me: Calling, e: Id, a: Answer, was: bool) {
    || (me.pc == Fetched(e, a) && (was ==> me.cancelled))
    || (Drops(me.pc, e, a) && a.err.Some? && me.cancelled)
    || (Keeps(me.pc, e, a) && (a.err.None? || !was))
  }

  lemma DecidedStep(s: State, step: Step, c: Call, e: Id, a: Answer, was: bool)
    requires Next(s, step).Some? && c in s.calls && Decided(s.calls[c], e, a, was)
    ensures c in Next(s, step).value.calls && Decided(Next(s, step).value.calls[c], e, a, was)
  {
  }

  lemma FetchStep(s: State, c: Call, a: Answer)
    requires Next(s, FetchReturns(c, a)).Some?
    ensures
      var t := Next(s, FetchReturns(c, a)).value;
      && c in s.calls && c in t.calls && t.calls[c].pc.Fetched? && t.calls[c].pc.a == a
      && t.calls[c].cancelled == s.calls[c].cancelled
  {
  }

  lemma {:induction false} DecidedAfter(steps: seq<Step>, a: Answer, more: seq<Step>, c: Call) returns (e: Id)
    requires Run(steps + [FetchReturns(c, a)] + more).Some?
    ensures
      var all := steps + [FetchReturns(c, a)] + more;
      && c in Run(all).value.calls
      && Decided(Run(all).value.calls[c], e, a, Cancel(c) in steps)
    decreases |more|
  {
    hide Next, Run;
    var first := steps + [FetchReturns(c, a)];
    if more == [] {
      assert first + more == first;
      RunSnoc(steps, FetchReturns(c, a));
      FetchStep(Run(steps).value, c, a);
      CallsAre(steps, c);
      e := Run(first).value.calls[c].pc.e;
    } else {
      var n := |more| - 1;
      assert first + more == (first + more[..n]) + [more[n]];
      RunSnoc(first + more[..n], more[n]);
      e := DecidedAfter(steps, a, more[..n], c);
      DecidedStep(Run(first + more[..n]).value, more[n], c, e, a, Cancel(c) in steps);
    }
  }

  /** The steps before the call tests its fetch and its context. */
  function BeforeDecide(more: seq<Step>, c: Call): seq<Step> {
    if more == [] || more[0] == Decide(c) then [] else [more[0]] + BeforeDecide(more[1..], c)
  }

  lemma {:induction false} BeforeDecideSnoc(more: seq<Step>, step: Step, c: Call)
    ensures BeforeDecide(more + [step], c) ==
            if Decide(c) in more then BeforeDecide(more, c) else if step == Decide(c) then more else more + [step]
    ensures Decide(c) !in more ==> BeforeDecide(more, c) == more
  {
    if more == [] {
      assert more + [step] == [step] && [step][1..] == [];
    } else {
      BeforeDecideSnoc(more[1..], step, c);
      assert (more + [step])[1..] == more[1..] + [step];
      assert more == [more[0]] + more[1..];
    }
  }

  /** Where the call is, told by what had happened when it tested. */
  predicate Tested(me: Calling, e: Id, a: Answer, tested: bool, ended: bool) {
    if !tested then me.pc == Fetched(e, a) && me.cancelled == ended
    else if a.err.Some? && ended then Drops(me.pc, e, a)
    else Keeps(me.pc, e, a)
  }

  lemma TestedStep(s: State, step: Step, c: Call, e: Id, a: Answer, tested: bool, ended: bool)
    requires Next(s, step).Some? && c in s.calls && Tested(s.calls[c], e, a, tested, ended)
    ensures c in Next(s, step).value.calls
    ensures Tested(Next(s, step).value.calls[c], e, a, tested || step == Decide(c), ended || (!tested && step == Cancel(c)))
  {
  }

  lemma {:induction false} TestedAfter(steps: seq<Step>, a: Answer, more: seq<Step>, c: Call) returns (e: Id)
    requires Run(steps + [FetchReturns(c, a)] + more).Some?
    ensures
      var all := steps + [FetchReturns(c, a)] + more;
      && c in Run(all).value.calls
      && Tested(Run(all).value.calls[c], e, a, Decide(c) in more, Cancel(c) in steps + BeforeDecide(more, c))
    decreases |more|
  {
    hide Next, Run, Tested;
    var first := steps + [FetchReturns(c, a)];
    if more == [] {
      assert first + more == first && steps + BeforeDecide(more, c) == steps;
      RunSnoc(steps, FetchReturns(c, a));
      FetchStep(Run(steps).value, c, a);
      CallsAre(steps, c);
      e := Run(first).value.calls[c].pc.e;
      NotTested(Run(first).value.calls[c], e, a, Cancel(c) in steps);
    } else {
      var n := |more| - 1;
      assert more == more[..n] + [more[n]];
      assert first + more == (first + more[..n]) + [more[n]];
      RunSnoc(first + more[..n], more[n]);
      e := TestedAfter(steps, a, more[..n], c);
      TestedStep(Run(first + more[..n]).value, more[n], c, e, a, Decide(c) in more[..n], Cancel(c) in steps + BeforeDecide(more[..n], c));
      BeforeDecideSnoc(more[..n], more[n], c);
    }
  }

  lemma NotTested(me: Calling, e: Id, a: Answer, ended: bool)
    requires me.pc == Fetched(e, a) && me.cancelled == ended
    ensures Tested(me, e, a, false, ended)
  {
  }

  /** A call returns what its fetch returned. When that is an error and the context of the call
      had ended when it tested for it, the entry is dropped; in every other case the answer is
      the entry's for good. */
  lemma FetchDecides(steps: seq<Step>, a: Answer, more: seq<Step>, c: Call)
    requires Run(steps + [FetchReturns(c, a)] + more).Some?
    requires
      var s := Run(steps + [FetchReturns(c, a)] + more).value;
      c in s.calls ==> s.calls[c].pc.Returned?
    ensures
      var s := Run(steps + [FetchReturns(c, a)] + more).value;
      && c in s.calls
      && s.calls[c].pc.a == a
      && (s.calls[c].pc.via.Dropped? <==> a.err.Some? && Cancel(c) in steps + BeforeDecide(more, c))
      && (s.calls[c].pc.via.Own? <==> a.err.None? || Cancel(c) !in steps + BeforeDecide(more, c))
  {
    var e := TestedAfter(steps, a, more, c);
    hide Run, BeforeDecide;
  }

  /** The error of a fetch whose own context had ended is nobody's answer: whatever the map
      publishes, it is not from that call. */
  lemma EndedFetchIsNotPublished(steps: seq<Step>, a: Answer, more: seq<Step>, c: Call, k: Key)
    requires Run(steps + [FetchReturns(c, a)] + more).Some? && a.err.Some? && Cancel(c) in steps
    requires k in Published(Run(steps + [FetchReturns(c, a)] + more).value)
    ensures
      var s := Run(steps + [FetchReturns(c, a)] + more).value;
      k in s.entries && s.entries[k] < |s.heap| && s.heap[s.entries[k]].owner != Some(c)
  {
    var all := steps + [FetchReturns(c, a)] + more;
    var e := DecidedAfter(steps, a, more, c);
    RunInv(all);
    hide Run;
    var s := Run(all).value;
    assert EntryOk(s, s.entries[k]);
    assert CallOk(s, c);
  }

  // ---- where a published answer came from ----

  /** The step that gave key k its answer: a store, or the return of a fetch for it that
      gave no error or whose context had not ended. */
  predicate Gives(steps: seq<Step>, i: nat, calls: map<Call, Calling>, k: Key, a: Answer)
    requires i < |steps|
  {
    match steps[i]
    case Store(key, b) => key == k && b == a
    case FetchReturns(c, b) => b == a && c in calls && calls[c].key == k && (a.err.Some? ==> Cancel(c) !in steps[..i])
    case _ => false
  }

  ghost predicate Given(steps: seq<Step>, calls: map<Call, Calling>, k: Key, a: Answer) {
    exists i :: 0 <= i < |steps| && Gives(steps, i, calls, k, a)
  }

  lemma GivenStays(steps: seq<Step>, step: Step, calls: map<Call, Calling>, now: map<Call, Calling>, k: Key, a: Answer)
    requires Given(steps, calls, k, a) && forall c :: c in calls ==> c in now && now[c].key == calls[c].key
    ensures Given(steps + [step], now, k, a)
  {
    var i :| 0 <= i < |steps| && Gives(steps, i, calls, k, a);
    assert (steps + [step])[..i] == steps[..i] && (steps + [step])[i] == steps[i];
    assert Gives(steps + [step], i, now, k, a);
  }

  /** Every answer on its way to the map was given, unless its call may still drop it. */
  ghost predicate OnTheWay(steps: seq<Step>, s: State, c: Call) {
    c in s.calls ==>
      match s.calls[c].pc
      case Fetched(_, a) => Given(steps, s.calls, s.calls[c].key, a) || (a.err.Some? && s.calls[c].cancelled)
      case Keeping(_, a) => Given(steps, s.calls, s.calls[c].key, a)
      case ClosingKept(_, a) => Given(steps, s.calls, s.calls[c].key, a)
      case _ => true
  }

  lemma OnTheWayStep(steps: seq<Step>, step: Step, s: State, c: Call)
    requires Run(steps) == Some(s) && Next(s, step).Some? && OnTheWay(steps, s, c)
    ensures OnTheWay(steps + [step], Next(s, step).value, c)
  {
    var t := Next(s, step).value;
    CallsAre(steps, c);
    hide Run;
    forall d ensures d in s.calls ==> d in t.calls && t.calls[d].key == s.calls[d].key { CallsStep(s, step, d); }
    if c in t.calls {
      CallsStep(s, step, c);
      if c in s.calls && step.FetchReturns? && step.c == c {
        FetchStep(s, c, step.a);
        var n := |steps|;
        assert (steps + [step])[..n] == steps && (steps + [step])[n] == step;
        if step.a.err.None? || !s.calls[c].cancelled { assert Gives(steps + [step], n, t.calls, t.calls[c].key, step.a); }
      } else if c in s.calls {
        PcMoves(s, step, c);
        hide Next, Given;
        forall a | Given(steps, s.calls, s.calls[c].key, a) ensures Given(steps + [step], t.calls, t.calls[c].key, a) {
          GivenStays(steps, step, s.calls, t.calls, s.calls[c].key, a);
        }
      } else {
        NewCall(s, step, c);
      }
    }
  }

  lemma NewCall(s: State, step: Step, c: Call)
    requires Next(s, step).Some? && c !in s.calls && c in Next(s, step).value.calls
    ensures Next(s, step).value.calls[c].pc == Start
  {
  }

  /** The answer a call carries it carried before, unless its fetch just returned. */
  lemma PcMoves(s: State, step: Step, c: Call)
    requires Next(s, step).Some? && c in s.calls && step != FetchReturns(c, if step.FetchReturns? then step.a else Zero)
    ensures
      var was, now := s.calls[c], Next(s, step).value.calls[c];
      match now.pc
      case Fetched(_, a) => was.pc.Fetched? && was.pc.a == a && (was.cancelled ==> now.cancelled)
      case Keeping(_, a) => (was.pc.Keeping? && was.pc.a == a) || (was.pc.Fetched? && was.pc.a == a && (a.err.None? || !was.cancelled))
      case ClosingKept(_, a) => (was.pc.ClosingKept? || was.pc.Keeping?) && was.pc.a == a
      case _ => true
  {
  }

  lemma {:induction false} AllOnTheWay(steps: seq<Step>, c: Call)
    requires Run(steps).Some?
    ensures OnTheWay(steps, Run(steps).value, c)
  {
    if steps != [] {
      var n := |steps| - 1;
      RunCut(steps);
      AllOnTheWay(steps[..n], c);
      hide Run, OnTheWay;
      OnTheWayStep(steps[..n], steps[n], Run(steps[..n]).value, c);
      assert steps[..n] + [steps[n]] == steps;
    }
  }

  /** Every answer the map publishes was stored for its key, or is what a fetch for it
      returned: never an error of a fetch whose own context had ended by then. */
  lemma {:induction false} PublishedWasGiven(steps: seq<Step>, k: Key)
    requires Run(steps).Some? && k in Published(Run(steps).value)
    ensures Given(steps, Run(steps).value.calls, k, Published(Run(steps).value)[k])
  {
    if steps == [] {
      assert false;
    } else {
      var n := |steps| - 1;
      RunCut(steps);
      RunInv(steps[..n]);
      var s, t, step := Run(steps[..n]).value, Run(steps).value, steps[n];
      hide Run, Inv, Next;
      StepRefines(s, step);
      forall d ensures d in s.calls ==> d in t.calls && t.calls[d].key == s.calls[d].key { CallsStep(s, step, d); }
      assert steps[..n] + [step] == steps;
      if k in Published(s) {
        PublishedWasGiven(steps[..n], k);
        GivenStays(steps[..n], step, s.calls, t.calls, k, Published(s)[k]);
      } else if step.Store? {
        assert Gives(steps, n, t.calls, k, step.a);
      } else {
        AllOnTheWay(steps[..n], step.c);
        GivenStays(steps[..n], step, s.calls, t.calls, k, s.calls[step.c].pc.a);
      }
    }
  }

  // ---- waiters ----

  /** A waiter whose context ended may leave at once, whatever becomes of the entry it
      waits for, and touches neither the entry nor the map. */
  lemma EndedWaiterLeaves(steps: seq<Step>, c: Call)
    requires Run(steps).Some? && c in Run(steps).value.calls && Run(steps).value.calls[c].pc.Waiting? && Cancel(c) in steps
    ensures
      var s := Run(steps).value;
      && Next(s, GiveUp(c)).Some?
      && var t := Next(s, GiveUp(c)).value;
         && t.entries == s.entries && t.heap == s.heap
         && t.calls[c].pc.Returned? && t.calls[c].pc.via.GaveUp?
         && forall d :: d in s.calls && d != c ==> d in t.calls && t.calls[d] == s.calls[d]
  {
    CallsAre(steps, c);
    hide Run;
  }
}
