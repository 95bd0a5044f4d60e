/** What every run of the memo keeps (internal/checks/loader.go, memo.do and memo.store),
    whatever the interleaving. */
module MemoLaws {
  import opened Text
  import opened Memo

  lemma StepKeeps(s: State, step: Step)
    requires Inv(s) && Next(s, step).Some?
    ensures Inv(Next(s, step).value)
  {
    hide Inv, CallStep;
    match step
    case Arrive(c, key) => ArriveKeeps(s, c, key);
    case Cancel(c) => CancelKeeps(s, c);
    case Store(key, a) => StoreKeeps(s, key, a);
    case LookUp(c) => CallStepKind(s, c, step); LookUpKeeps(s, c);
    case FetchReturns(c, _) => OwnerMoves(s, c, step);
    case Decide(c) => OwnerMoves(s, c, step);
    case Delete(c) => DeleteKeeps(s, c, step);
    case SetAbandoned(c) => WriteKeeps(s, c, step);
    case SetAnswer(c) => WriteKeeps(s, c, step);
    case Close(c) => WriteKeeps(s, c, step);
    case Wake(c) => WaiterKeeps(s, c, step);
    case ReadEntry(c) => WaiterKeeps(s, c, step);
    case GiveUp(c) => WaiterKeeps(s, c, step);
  }

  lemma CallStepKind(s: State, c: Call, step: Step)
    requires c in s.calls && step.LookUp? && CallStep(s, c, step).Some?
    ensures s.calls[c].pc == Start
  {
  }

  /** The invariant holds after every run. */
  lemma {:induction false} RunInv(steps: seq<Step>)
    requires Run(steps).Some?
    ensures Inv(Run(steps).value)
  {
    if steps != [] {
      hide Next;
      RunInv(steps[..|steps| - 1]);
      StepKeeps(Run(steps[..|steps| - 1]).value, steps[|steps| - 1]);
    }
  }

  // ---- ownership ----

  /** A call that made the entry of its key and has not closed it yet. */
  predicate Flying(s: State, c: Call) {
    c in s.calls && Owned(s.calls[c].pc).Some? && !s.calls[c].pc.Returned?
  }

  /** A call whose entry the map still has. */
  predicate Fetches(s: State, c: Call) {
    && c in s.calls
    && var pc := s.calls[c].pc;
       pc.Fetching? || pc.Fetched? || pc.Keeping? || pc.ClosingKept? || pc.Deleting?
  }

  /** At most one call at a time is fetching a key. */
  lemma OneFetcher(steps: seq<Step>, c: Call, d: Call)
    requires Run(steps).Some?
    requires
      var s := Run(steps).value;
      Fetches(s, c) && Fetches(s, d) && s.calls[c].key == s.calls[d].key
    ensures c == d
  {
    hide Run;
    RunInv(steps);
    var s := Run(steps).value;
    assert CallOk(s, c) && CallOk(s, d);
  }

  /** The entry a call deletes by key is the one it made itself. */
  lemma DeletesItsOwn(steps: seq<Step>, c: Call)
    requires Run(steps).Some? && Next(Run(steps).value, Delete(c)).Some?
    ensures
      var s := Run(steps).value;
      && c in s.calls && s.calls[c].key in s.entries
      && var e := s.entries[s.calls[c].key];
         && e < |s.heap| && s.heap[e].owner == Some(c) && Owned(s.calls[c].pc) == Some(e)
         && s.heap[e].closes == 0
  {
    hide Run;
    RunInv(steps);
    assert CallOk(Run(steps).value, c);
  }

  /** No channel is closed twice, and one that is about to be closed is open. */
  lemma ClosedOnce(steps: seq<Step>, e: Id)
    requires Run(steps).Some? && e < |Run(steps).value.heap|
    ensures
      var s := Run(steps).value;
      && s.heap[e].closes <= 1
      && forall c :: Next(s, Close(c)).Some? && Owned(s.calls[c].pc) == Some(e) ==> s.heap[e].closes == 0
  {
    hide Run;
    RunInv(steps);
    var s := Run(steps).value;
    assert EntryOk(s, e);
    forall c | Next(s, Close(c)).Some? && Owned(s.calls[c].pc) == Some(e) ensures s.heap[e].closes == 0 {
      assert CallOk(s, c);
    }
  }

  /** By the time a waiter sees an abandoned entry the map no longer has it, so the
      waiter's next round cannot find it again. */
  lemma AbandonedIsGone(steps: seq<Step>, c: Call)
    requires Run(steps).Some?
    requires
      var s := Run(steps).value;
      c in s.calls && s.calls[c].pc.Woken? && s.calls[c].pc.e < |s.heap| && s.heap[s.calls[c].pc.e].abandoned
    ensures
      var s := Run(steps).value;
      s.calls[c].key in s.entries ==> s.entries[s.calls[c].key] != s.calls[c].pc.e
  {
    hide Run;
    RunInv(steps);
    var s := Run(steps).value;
    assert CallOk(s, c) && EntryOk(s, s.calls[c].pc.e);
  }

  // ---- the memo as a map that is written once ----

  predicate Complete(s: State, key: Key) {
    key in s.entries && s.entries[key] < |s.heap| && s.heap[s.entries[key]].closes == 1 && !s.heap[s.entries[key]].abandoned
  }

  /** The answers published so far. */
  function Published(s: State): map<Key, Answer> {
    map k | k in s.entries && Complete(s, k) :: s.heap[s.entries[k]].answer
  }

  /** What a step publishes: a close of a kept answer and a store of a key nobody has. */
  function Publishes(s: State, step: Step): Option<(Key, Answer)> {
    match step
    case Store(key, a) => if key in s.entries then None else Some((key, a))
    case Close(c) =>
      if c in s.calls && s.calls[c].pc.ClosingKept? then Some((s.calls[c].key, s.calls[c].pc.a)) else None
    case _ => None
  }

  /** Every step does to the answers what one atomic step of a write-once map does:
      nothing, or one answer for a key that had none. */
  lemma StepRefines(s: State, step: Step)
    requires Inv(s) && Next(s, step).Some?
    ensures
      var t := Next(s, step).value;
      match Publishes(s, step)
      case None => Published(t) == Published(s)
      case Some(p) => p.0 !in Published(s) && Published(t) == Published(s)[p.0 := p.1]
  {
    var t := Next(s, step).value;
    hide CallOk, EntryOk, Inv, CallStep;
    forall k ensures k in Published(t) <==> k in Published(s) || (Publishes(s, step).Some? && Publishes(s, step).value.0 == k)
             ensures k in Published(t) ==>
                       Published(t)[k] == if Publishes(s, step).Some? && Publishes(s, step).value.0 == k then Publishes(s, step).value.1
                                          else Published(s)[k]
             ensures Publishes(s, step).Some? && Publishes(s, step).value.0 == k ==> k !in Published(s)
    {
      KeyRefines(s, step, k);
    }
  }

  lemma KeyRefines(s: State, step: Step, k: Key)
    requires Inv(s) && Next(s, step).Some?
    ensures
      var t := Next(s, step).value;
      var p := Publishes(s, step);
      if p.Some? && p.value.0 == k then !Complete(s, k) && Complete(t, k) && t.heap[t.entries[k]].answer == p.value.1
      else Complete(t, k) == Complete(s, k) && (Complete(s, k) ==> t.heap[t.entries[k]].answer == s.heap[s.entries[k]].answer)
  {
    if k in s.entries { assert EntryOk(s, s.entries[k]); }
    if !step.Store? && !step.Arrive? && !step.Cancel? { assert CallOk(s, step.c); }
  }

  predicate Extends(small: map<Key, Answer>, big: map<Key, Answer>) {
    forall k :: k in small ==> k in big && big[k] == small[k]
  }

  /** An answer once published is never changed or withdrawn, however the run goes on. */
  lemma {:induction false} PublishedForGood(steps: seq<Step>, more: seq<Step>)
    requires Run(steps + more).Some?
    ensures Run(steps).Some? && Extends(Published(Run(steps).value), Published(Run(steps + more).value))
    decreases |more|
  {
    if more == [] {
      assert steps + more == steps;
    } else {
      var n := |more| - 1;
      var all := steps + more;
      assert all[..|all| - 1] == steps + more[..n];
      hide Next;
      PublishedForGood(steps, more[..n]);
      hide Run;
      LastStep(steps + more[..n], more[n]);
      assert all == steps + more[..n] + [more[n]];
    }
  }

  lemma LastStep(steps: seq<Step>, step: Step)
    requires Run(steps + [step]).Some?
    ensures Run(steps).Some? && Extends(Published(Run(steps).value), Published(Run(steps + [step]).value))
  {
    var all := steps + [step];
    assert all[..|all| - 1] == steps;
    RunInv(steps);
    hide Published, Inv, Next;
    StepRefines(Run(steps).value, step);
  }

  /** A call that returned an answer it fetched or waited for returned the one that is
      published for its key; the two other ways to return need an ended context. */
  lemma ReturnsPublished(steps: seq<Step>, c: Call)
    requires Run(steps).Some?
    requires c in Run(steps).value.calls && Run(steps).value.calls[c].pc.Returned?
    ensures
      var s := Run(steps).value;
      var me := s.calls[c];
      match me.pc.via
      case Own(_) => me.key in Published(s) && Published(s)[me.key] == me.pc.a
      case Shared(_) => me.key in Published(s) && Published(s)[me.key] == me.pc.a
      case Dropped(_) => me.cancelled && me.pc.a.err.Some?
      case GaveUp => me.cancelled
  {
    hide Run;
    RunInv(steps);
    var s := Run(steps).value;
    assert CallOk(s, c);
    match s.calls[c].pc.via {
      case Own(e) => assert EntryOk(s, e);
      case Shared(e) => assert EntryOk(s, e);
      case _ =>
    }
  }

  /** Any two calls for one key whose contexts did not end return the same answer, at
      whatever moments of a run they return. */
  lemma Agreement(steps: seq<Step>, more: seq<Step>, c: Call, d: Call)
    requires Run(steps + more).Some? && Run(steps).Some?
    requires c in Run(steps).value.calls && d in Run(steps + more).value.calls
    requires
      var me, other := Run(steps).value.calls[c], Run(steps + more).value.calls[d];
      && me.pc.Returned? && (me.pc.via.Own? || me.pc.via.Shared?)
      && other.pc.Returned? && (other.pc.via.Own? || other.pc.via.Shared?)
      && me.key == other.key
    ensures Run(steps).value.calls[c].pc.a == Run(steps + more).value.calls[d].pc.a
  {
    hide Run, Published;
    ReturnsPublished(steps, c);
    ReturnsPublished(steps + more, d);
    PublishedForGood(steps, more);
  }

  // ---- how often a call goes round ----

  /** The other calls whose context ended. */
  function Ended(s: State, c: Call): set<Call> {
    set d | d in s.calls && d != c && s.calls[d].cancelled
  }

  /** As many distinct owners as entries. */
  lemma {:induction false} OwnersCount(s: State, c: Call, es: set<Id>) returns (owners: set<Call>)
    requires Inv(s)
    requires forall e :: e in es ==> e < |s.heap| && s.heap[e].abandoned && s.heap[e].owner != Some(c)
    ensures |owners| == |es| && owners <= Ended(s, c)
    ensures forall o :: o in owners ==> o in s.calls && Owned(s.calls[o].pc).Some? && Owned(s.calls[o].pc).value in es
    decreases es
  {
    if es == {} {
      owners := {};
    } else {
      var e :| e in es;
      owners := OwnersCount(s, c, es - {e});
      assert EntryOk(s, e);
      var o := s.heap[e].owner.value;
      assert o !in owners;
      owners := owners + {o};
    }
  }

  /** A call goes round the loop at most once for every other call whose own context
      ended. */
  lemma RetryBound(steps: seq<Step>, c: Call)
    requires Run(steps).Some? && c in Run(steps).value.calls
    ensures Run(steps).value.calls[c].rounds <= |Ended(Run(steps).value, c)|
  {
    hide Run;
    RunInv(steps);
    var s := Run(steps).value;
    assert CallOk(s, c);
    var owners := OwnersCount(s, c, s.calls[c].seen);
    FewerIn(owners, Ended(s, c));
  }

  lemma FewerIn(a: set<Call>, b: set<Call>)
    requires a <= b
    ensures |a| <= |b|
  {
    assert b == a + (b - a);
  }

  /** Whether a step is one a given call takes in do. */
  predicate Of(step: Step, c: Call) {
    !step.Arrive? && !step.Cancel? && !step.Store? && step.c == c
  }

  function Taken(steps: seq<Step>, c: Call): nat {
    if steps == [] then 0
    else Taken(steps[..|steps| - 1], c) + if Of(steps[|steps| - 1], c) then 1 else 0
  }

  /** How many steps of its current round a call has taken. */
  function Progress(pc: Pc): nat {
    match pc
    case Start => 0
    case Waiting(_) => 1
    case Woken(_) => 2
    case Fetching(_) => 1
    case Fetched(_, _) => 2
    case Deleting(_, _) => 3
    case Abandoning(_, _) => 4
    case ClosingAbandoned(_, _) => 5
    case Keeping(_, _) => 3
    case ClosingKept(_, _) => 4
    case Returned(_, Own(_)) => 5
    case Returned(_, Shared(_)) => 3
    case Returned(_, Dropped(_)) => 6
    case Returned(_, GaveUp) => 2
  }

  function Counted(s: State, c: Call): nat {
    if c in s.calls then 3 * s.calls[c].rounds + Progress(s.calls[c].pc) else 0
  }

  lemma StepCounts(s: State, step: Step, c: Call)
    requires Next(s, step).Some?
    ensures Counted(Next(s, step).value, c) == Counted(s, c) + if Of(step, c) then 1 else 0
  {
  }

  lemma {:induction false} RunCounts(steps: seq<Step>, c: Call)
    requires Run(steps).Some?
    ensures Taken(steps, c) == Counted(Run(steps).value, c)
  {
    if steps != [] {
      hide Next, Counted;
      RunCounts(steps[..|steps| - 1], c);
      StepCounts(Run(steps[..|steps| - 1]).value, steps[|steps| - 1], c);
    } else {
      NoneCounted(c);
    }
  }

  lemma NoneCounted(c: Call)
    ensures Counted(Init, c) == 0
  {
  }

  /** A call takes three steps for every round and six for the last one, at most: in a
      run with finitely many calls every call of do ends. */
  lemma EveryCallEnds(steps: seq<Step>, c: Call)
    requires Run(steps).Some? && c in Run(steps).value.calls
    ensures Taken(steps, c) <= 3 * |Ended(Run(steps).value, c)| + 6
  {
    hide Run;
    RetryBound(steps, c);
    RunCounts(steps, c);
  }

  /** The step a call in flight can take; its fetch may return anything. */
  function OwnStep(s: State, c: Call): Step
    requires c in s.calls
  {
    match s.calls[c].pc
    case Start => LookUp(c)
    case Waiting(_) => Wake(c)
    case Woken(_) => ReadEntry(c)
    case Fetching(_) => FetchReturns(c, Zero)
    case Fetched(_, _) => Decide(c)
    case Deleting(_, _) => Delete(c)
    case Abandoning(_, _) => SetAbandoned(c)
    case Keeping(_, _) => SetAnswer(c)
    case _ => Close(c)
  }

  /** The call that has to move for a call to move: itself, or the one it waits for. */
  function Mover(s: State, c: Call): Call
    requires c in s.calls
  {
    match s.calls[c].pc
    case Waiting(e) =>
      if e < |s.heap| && s.heap[e].closes == 0 && s.heap[e].owner.Some? then s.heap[e].owner.value else c
    case _ => c
  }

  /** No call is ever stuck: one that has not returned can take its next step, or waits
      for a call that can. */
  lemma NoDeadlock(steps: seq<Step>, c: Call)
    requires Run(steps).Some? && c in Run(steps).value.calls && !Run(steps).value.calls[c].pc.Returned?
    ensures
      var s := Run(steps).value;
      && Mover(s, c) in s.calls
      && Next(s, OwnStep(s, Mover(s, c))).Some?
      && (Mover(s, c) != c ==> Flying(s, Mover(s, c)))
  {
    hide Run;
    RunInv(steps);
    var s := Run(steps).value;
    assert CallOk(s, c);
    if s.calls[c].pc.Waiting? { assert EntryOk(s, s.calls[c].pc.e); }
    assert CallOk(s, Mover(s, c));
  }
}
