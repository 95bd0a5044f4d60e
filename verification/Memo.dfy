/** The single-flight memo (memo.do and memo.store in internal/checks/loader.go) as a
    system of interleaved steps: one program counter for every call of do, and the map
    and the entries all calls share. A step is what happens between two points at which
    another goroutine may run: one section under the lock, one field written, one
    channel closed, one return from the fetch. */
module Memo {
  import opened Text

  type Key = string
  type Call = nat
  type Id = nat

  /** What a fetch returns. */
  datatype Answer = Answer(val: string, err: Option<string>)

  const Zero := Answer("", None)

  /** An entry: the call that made it, or None for one store made; how often its channel
      was closed, which must never be twice. */
  datatype Entry = Entry(key: Key, owner: Option<Call>, answer: Answer, closes: nat, abandoned: bool)

  /** What a finished call returned: the answer it fetched, one it waited for, its own
      failure under an ended context, or that context's error. */
  datatype Via = Own(e: Id) | Shared(e: Id) | Dropped(e: Id) | GaveUp

  datatype Pc =
    | Start
    | Waiting(e: Id)
    | Woken(e: Id)
    | Fetching(e: Id)
    | Fetched(e: Id, a: Answer)
    | Deleting(e: Id, a: Answer)
    | Abandoning(e: Id, a: Answer)
    | ClosingAbandoned(e: Id, a: Answer)
    | Keeping(e: Id, a: Answer)
    | ClosingKept(e: Id, a: Answer)
    | Returned(a: Answer, via: Via)

  /** One call of do. rounds counts its passes through the loop after the first; seen is
      the abandoned entries that sent it round, kept for the proof alone. */
  datatype Calling = Calling(key: Key, cancelled: bool, pc: Pc, rounds: nat, seen: set<Id>)

  datatype State = State(entries: map<Key, Id>, heap: seq<Entry>, calls: map<Call, Calling>)

  const Init := State(map[], [], map[])

  datatype Step =
    | Arrive(c: Call, key: Key)
    | Cancel(c: Call)
    | LookUp(c: Call)
    | FetchReturns(c: Call, a: Answer)
    | Decide(c: Call)
    | Delete(c: Call)
    | SetAbandoned(c: Call)
    | SetAnswer(c: Call)
    | Close(c: Call)
    | Wake(c: Call)
    | ReadEntry(c: Call)
    | GiveUp(c: Call)
    | Store(key: Key, a: Answer)

  /** The pc of a call that owns the entry it made, in flight or finished. */
  function Owned(pc: Pc): Option<Id> {
    match pc
    case Fetching(e) => Some(e)
    case Fetched(e, _) => Some(e)
    case Deleting(e, _) => Some(e)
    case Abandoning(e, _) => Some(e)
    case ClosingAbandoned(e, _) => Some(e)
    case Keeping(e, _) => Some(e)
    case ClosingKept(e, _) => Some(e)
    case Returned(_, Own(e)) => Some(e)
    case Returned(_, Dropped(e)) => Some(e)
    case _ => None
  }

  function At(s: State, c: Call, pc: Pc): State
    requires c in s.calls
  {
    s.(calls := s.calls[c := s.calls[c].(pc := pc)])
  }

  function WithEntry(s: State, e: Id, entry: Entry): State
    requires e < |s.heap|
  {
    s.(heap := s.heap[e := entry])
  }

  /** The step a call takes, when it can take it. */
  function CallStep(s: State, c: Call, step: Step): Option<State>
    requires c in s.calls
  {
    var me := s.calls[c];
    match (step, me.pc)
    case (LookUp(_), Start) =>
      if me.key in s.entries then Some(At(s, c, Waiting(s.entries[me.key])))
      else
        var e := |s.heap|;
        Some(At(s.(entries := s.entries[me.key := e], heap := s.heap + [Entry(me.key, Some(c), Zero, 0, false)]), c, Fetching(e)))
    case (FetchReturns(_, a), Fetching(e)) => Some(At(s, c, Fetched(e, a)))
    case (Decide(_), Fetched(e, a)) =>
      if a.err.Some? && me.cancelled then Some(At(s, c, Deleting(e, a))) else Some(At(s, c, Keeping(e, a)))
    case (Delete(_), Deleting(e, a)) => Some(At(s.(entries := s.entries - {me.key}), c, Abandoning(e, a)))
    case (SetAbandoned(_), Abandoning(e, a)) =>
      if e < |s.heap| then Some(At(WithEntry(s, e, s.heap[e].(abandoned := true)), c, ClosingAbandoned(e, a))) else None
    case (Close(_), ClosingAbandoned(e, a)) =>
      if e < |s.heap| then
        Some(At(WithEntry(s, e, s.heap[e].(closes := s.heap[e].closes + 1)), c, Returned(a, Dropped(e))))
      else None
    case (SetAnswer(_), Keeping(e, a)) =>
      if e < |s.heap| then Some(At(WithEntry(s, e, s.heap[e].(answer := a)), c, ClosingKept(e, a))) else None
    case (Close(_), ClosingKept(e, a)) =>
      if e < |s.heap| then
        Some(At(WithEntry(s, e, s.heap[e].(closes := s.heap[e].closes + 1)), c, Returned(a, Own(e))))
      else None
    case (Wake(_), Waiting(e)) => if e < |s.heap| && s.heap[e].closes > 0 then Some(At(s, c, Woken(e))) else None
    case (ReadEntry(_), Woken(e)) =>
      if e < |s.heap| then
        if s.heap[e].abandoned then
          Some(s.(calls := s.calls[c := me.(pc := Start, rounds := me.rounds + 1, seen := me.seen + {e})]))
        else Some(At(s, c, Returned(s.heap[e].answer, Shared(e))))
      else None
    case (GiveUp(_), Waiting(_)) => if me.cancelled then Some(At(s, c, Returned(Zero, GaveUp))) else None
    case _ => None
  }

  /** One step of the system, None when it cannot be taken. */
  function Next(s: State, step: Step): Option<State> {
    match step
    case Arrive(c, key) =>
      if c in s.calls then None else Some(s.(calls := s.calls[c := Calling(key, false, Start, 0, {})]))
    case Cancel(c) =>
      if c in s.calls then Some(s.(calls := s.calls[c := s.calls[c].(cancelled := true)])) else None
    case Store(key, a) =>
      if key in s.entries then Some(s)
      else Some(s.(entries := s.entries[key := |s.heap|], heap := s.heap + [Entry(key, None, a, 1, false)]))
    case _ => if step.c in s.calls then CallStep(s, step.c, step) else None
  }

  /** The state after a sequence of steps, None when one of them cannot be taken. */
  function Run(steps: seq<Step>): Option<State> {
    if steps == [] then Some(Init)
    else
      match Run(steps[..|steps| - 1])
      case None => None
      case Some(s) => Next(s, steps[|steps| - 1])
  }

  // ---- the invariant ----

  predicate Mapped(s: State, e: Id)
    requires e < |s.heap|
  {
    s.heap[e].key in s.entries && s.entries[s.heap[e].key] == e
  }

  /** The entry of a call in flight: its own, open, and the one the map has. */
  predicate InFlight(s: State, c: Call, e: Id)
    requires c in s.calls
  {
    && e < |s.heap| && s.heap[e].key == s.calls[c].key && s.heap[e].owner == Some(c)
    && s.heap[e].closes == 0 && !s.heap[e].abandoned && Mapped(s, e)
  }

  predicate WaitsFor(s: State, c: Call, e: Id)
    requires c in s.calls
  {
    && e < |s.heap| && s.heap[e].key == s.calls[c].key && s.heap[e].owner != Some(c)
    && e !in s.calls[c].seen
  }

  /** An entry that was completed with an answer. */
  predicate Answered(s: State, e: Id, key: Key, a: Answer) {
    e < |s.heap| && s.heap[e].key == key && s.heap[e].closes == 1 && !s.heap[e].abandoned && s.heap[e].answer == a
  }

  /** An entry taken out of the map by a call whose context ended. */
  predicate Leaving(s: State, c: Call, e: Id, closes: nat, abandoned: bool)
    requires c in s.calls
  {
    && e < |s.heap| && s.heap[e].key == s.calls[c].key && s.heap[e].owner == Some(c)
    && s.heap[e].closes == closes && s.heap[e].abandoned == abandoned && !Mapped(s, e)
    && s.calls[c].cancelled
  }

  predicate PcOk(s: State, c: Call)
    requires c in s.calls
  {
    var me := s.calls[c];
    match me.pc
    case Start => true
    case Waiting(e) => WaitsFor(s, c, e)
    case Woken(e) => WaitsFor(s, c, e) && s.heap[e].closes == 1
    case Fetching(e) => InFlight(s, c, e)
    case Fetched(e, _) => InFlight(s, c, e)
    case Keeping(e, a) => InFlight(s, c, e)
    case ClosingKept(e, a) => InFlight(s, c, e) && s.heap[e].answer == a
    case Deleting(e, a) => InFlight(s, c, e) && me.cancelled && a.err.Some?
    case Abandoning(e, a) => Leaving(s, c, e, 0, false) && a.err.Some?
    case ClosingAbandoned(e, a) => Leaving(s, c, e, 0, true) && a.err.Some?
    case Returned(a, Own(e)) => Answered(s, e, me.key, a) && s.heap[e].owner == Some(c)
    case Returned(a, Shared(e)) => Answered(s, e, me.key, a)
    case Returned(a, Dropped(e)) => Leaving(s, c, e, 1, true) && a.err.Some?
    case Returned(a, GaveUp) => me.cancelled
  }

  /** Every abandoned entry a call went round for was another call's. */
  predicate SeenOk(s: State, c: Call)
    requires c in s.calls
  {
    && s.calls[c].rounds == |s.calls[c].seen|
    && forall e :: e in s.calls[c].seen ==> e < |s.heap| && s.heap[e].abandoned && s.heap[e].owner != Some(c)
  }

  predicate CallOk(s: State, c: Call) {
    c in s.calls ==> PcOk(s, c) && SeenOk(s, c)
  }

  predicate EntryOk(s: State, e: Id) {
    e < |s.heap| ==>
      var entry := s.heap[e];
      && entry.closes <= 1
      && (entry.closes == 1 && !entry.abandoned ==> Mapped(s, e))
      && (entry.abandoned ==> !Mapped(s, e) && entry.owner.Some?)
      && match entry.owner
         case None => entry.closes == 1 && !entry.abandoned
         case Some(o) =>
           && o in s.calls && Owned(s.calls[o].pc) == Some(e)
           && (entry.abandoned ==> s.calls[o].cancelled)
  }

  predicate MapOk(s: State) {
    forall k :: k in s.entries ==> s.entries[k] < |s.heap| && s.heap[s.entries[k]].key == k
  }

  ghost predicate Inv(s: State) {
    && MapOk(s)
    && (forall c :: CallOk(s, c))
    && (forall e :: EntryOk(s, e))
  }

  // ---- every step keeps the invariant ----

  lemma ArriveKeeps(s: State, c: Call, key: Key)
    requires Inv(s) && c !in s.calls
    ensures Inv(Next(s, Arrive(c, key)).value)
  {
    var t := Next(s, Arrive(c, key)).value;
    forall d ensures CallOk(t, d) { assert CallOk(s, d); }
    forall e ensures EntryOk(t, e) { assert EntryOk(s, e); }
  }

  lemma CancelKeeps(s: State, c: Call)
    requires Inv(s) && c in s.calls
    ensures Inv(Next(s, Cancel(c)).value)
  {
    var t := Next(s, Cancel(c)).value;
    forall d ensures CallOk(t, d) { assert CallOk(s, d); }
    forall e ensures EntryOk(t, e) { assert EntryOk(s, e); }
  }

  lemma StoreKeeps(s: State, key: Key, a: Answer)
    requires Inv(s)
    ensures Inv(Next(s, Store(key, a)).value)
  {
    var t := Next(s, Store(key, a)).value;
    forall d ensures CallOk(t, d) { assert CallOk(s, d); }
    forall e ensures EntryOk(t, e) { assert EntryOk(s, e); }
  }

  lemma LookUpKeeps(s: State, c: Call)
    requires Inv(s) && c in s.calls && s.calls[c].pc == Start
    ensures Inv(CallStep(s, c, LookUp(c)).value)
  {
    hide CallOk, EntryOk, MapOk, CallStep;
    LookUpMaps(s, c);
    var t := CallStep(s, c, LookUp(c)).value;
    forall d ensures CallOk(t, d) { LookUpCall(s, c, d); }
    forall e ensures EntryOk(t, e) { LookUpEntry(s, c, e); }
  }

  lemma LookUpMaps(s: State, c: Call)
    requires MapOk(s) && c in s.calls && s.calls[c].pc == Start
    ensures CallStep(s, c, LookUp(c)).Some? && MapOk(CallStep(s, c, LookUp(c)).value)
  {
  }

  lemma LookUpCall(s: State, c: Call, d: Call)
    requires Inv(s) && c in s.calls && s.calls[c].pc == Start && CallStep(s, c, LookUp(c)).Some?
    ensures CallOk(CallStep(s, c, LookUp(c)).value, d)
  {
    assert CallOk(s, d);
    if d == c && s.calls[c].key in s.entries { assert EntryOk(s, s.entries[s.calls[c].key]); }
  }

  lemma LookUpEntry(s: State, c: Call, e: Id)
    requires Inv(s) && c in s.calls && s.calls[c].pc == Start && CallStep(s, c, LookUp(c)).Some?
    ensures EntryOk(CallStep(s, c, LookUp(c)).value, e)
  {
    hide CallOk;
    assert EntryOk(s, e);
  }

  /** A call sees a step of another call only in the map and in the entries. */
  lemma PcSees(s: State, t: State, d: Call)
    requires d in s.calls && d in t.calls && s.calls[d] == t.calls[d]
    requires s.entries == t.entries && s.heap == t.heap
    ensures PcOk(s, d) == PcOk(t, d) && SeenOk(s, d) == SeenOk(t, d)
  {
  }

  lemma CallSees(s: State, t: State, d: Call)
    requires CallOk(s, d)
    requires d in t.calls ==> d in s.calls && s.calls[d] == t.calls[d]
    requires s.entries == t.entries && s.heap == t.heap
    ensures CallOk(t, d)
  {
    hide PcOk, SeenOk;
    if d in t.calls { PcSees(s, t, d); }
  }

  /** A step that moves only the call's own counter, between states of the same entry. */
  lemma OwnerMoves(s: State, c: Call, step: Step)
    requires Inv(s) && c in s.calls && CallStep(s, c, step).Some?
    requires step.FetchReturns? || step.Decide?
    ensures Inv(CallStep(s, c, step).value)
  {
    hide CallOk, EntryOk;
    var t := CallStep(s, c, step).value;
    OwnerMovesOwn(s, c, step);
    forall d ensures CallOk(t, d) { if d != c { CallSees(s, t, d); } }
    forall e ensures EntryOk(t, e) { OwnerMovesEntry(s, c, step, e); }
  }

  lemma OwnerMovesOwn(s: State, c: Call, step: Step)
    requires CallOk(s, c) && c in s.calls && CallStep(s, c, step).Some?
    requires step.FetchReturns? || step.Decide?
    ensures CallOk(CallStep(s, c, step).value, c)
    ensures CallStep(s, c, step).value.entries == s.entries && CallStep(s, c, step).value.heap == s.heap
    ensures forall d :: d in CallStep(s, c, step).value.calls && d != c ==> d in s.calls && s.calls[d] == CallStep(s, c, step).value.calls[d]
  {
  }

  lemma OwnerMovesEntry(s: State, c: Call, step: Step, e: Id)
    requires EntryOk(s, e) && c in s.calls && CallStep(s, c, step).Some?
    requires step.FetchReturns? || step.Decide?
    ensures EntryOk(CallStep(s, c, step).value, e)
  {
  }

  /** Taking the entry out of the map: it is the entry the map has for the key. */
  lemma DeleteKeeps(s: State, c: Call, step: Step)
    requires Inv(s) && c in s.calls && CallStep(s, c, step).Some? && step.Delete?
    ensures Inv(CallStep(s, c, step).value)
  {
    var t := CallStep(s, c, step).value;
    assert CallOk(s, c);
    var own := Owned(s.calls[c].pc).value;
    forall d ensures CallOk(t, d) { assert CallOk(s, d); if d != c && d in s.calls { OthersKeep(s, c, d, own); } }
    forall e ensures EntryOk(t, e) { assert EntryOk(s, e); }
  }

  /** No other call owns the entry of a call in flight, and none was answered from it. */
  lemma OthersKeep(s: State, c: Call, d: Call, e: Id)
    requires Inv(s) && c in s.calls && d in s.calls && c != d
    requires e < |s.heap| && s.heap[e].owner == Some(c)
    ensures Owned(s.calls[d].pc) != Some(e)
    ensures s.heap[e].closes == 0 ==>
              match s.calls[d].pc
              case Woken(x) => x != e
              case Returned(_, Shared(x)) => x != e
              case _ => true
  {
    assert CallOk(s, d) && EntryOk(s, e);
  }

  /** The steps that write to the entry of the call that owns it. */
  lemma WriteKeeps(s: State, c: Call, step: Step)
    requires Inv(s) && c in s.calls && CallStep(s, c, step).Some?
    requires step.SetAbandoned? || step.SetAnswer? || step.Close?
    ensures Inv(CallStep(s, c, step).value)
  {
    hide CallOk, EntryOk;
    var t := CallStep(s, c, step).value;
    var own := Owned(s.calls[c].pc).value;
    forall d ensures CallOk(t, d) {
      if d != c { WriteOthers(s, c, step, d); } else { WriteOwn(s, c, step); }
    }
    forall e ensures EntryOk(t, e) { WriteEntries(s, c, step, e); }
  }

  /** What a write to an open entry leaves of it. */
  predicate Grows(was: Entry, now: Entry) {
    now.key == was.key && now.owner == was.owner && (was.abandoned ==> now.abandoned)
  }

  lemma WriteShape(s: State, c: Call, step: Step)
    requires CallOk(s, c) && c in s.calls && CallStep(s, c, step).Some?
    requires step.SetAbandoned? || step.SetAnswer? || step.Close?
    ensures
      var t := CallStep(s, c, step).value;
      var own := Owned(s.calls[c].pc);
      && own.Some? && own.value < |s.heap| && s.heap[own.value].owner == Some(c) && s.heap[own.value].closes == 0
      && t.entries == s.entries && |t.heap| == |s.heap| && Grows(s.heap[own.value], t.heap[own.value])
      && (forall e :: 0 <= e < |s.heap| && e != own.value ==> t.heap[e] == s.heap[e])
      && (forall d :: d != c ==> (d in t.calls <==> d in s.calls) && (d in s.calls ==> t.calls[d] == s.calls[d]))
  {
  }

  lemma WriteOthers(s: State, c: Call, step: Step, d: Call)
    requires Inv(s) && c in s.calls && CallStep(s, c, step).Some? && c != d
    requires step.SetAbandoned? || step.SetAnswer? || step.Close?
    ensures CallOk(CallStep(s, c, step).value, d)
  {
    hide CallOk, EntryOk, CallStep, PcOk, SeenOk, MapOk;
    assert CallOk(s, c) && CallOk(s, d);
    WriteShape(s, c, step);
    if d in s.calls {
      OthersKeep(s, c, d, Owned(s.calls[c].pc).value);
      SeesWrite(s, CallStep(s, c, step).value, d, Owned(s.calls[c].pc).value);
    }
    OnlyKnown(CallStep(s, c, step).value, d);
  }

  lemma OnlyKnown(t: State, d: Call)
    ensures d !in t.calls ==> CallOk(t, d)
  {
  }

  /** A write to an open entry the call does not own. */
  lemma SeesWrite(s: State, t: State, d: Call, e: Id)
    requires d in s.calls && d in t.calls && t.calls[d] == s.calls[d] && CallOk(s, d)
    requires t.entries == s.entries && |t.heap| == |s.heap| && e < |s.heap| && Grows(s.heap[e], t.heap[e])
    requires forall x :: 0 <= x < |s.heap| && x != e ==> t.heap[x] == s.heap[x]
    requires s.heap[e].closes == 0 && Owned(s.calls[d].pc) != Some(e)
    requires match s.calls[d].pc
             case Woken(x) => x != e
             case Returned(_, Shared(x)) => x != e
             case _ => true
    ensures CallOk(t, d)
  {
  }

  lemma WriteOwn(s: State, c: Call, step: Step)
    requires Inv(s) && c in s.calls && CallStep(s, c, step).Some?
    requires step.SetAbandoned? || step.SetAnswer? || step.Close?
    ensures CallOk(CallStep(s, c, step).value, c)
  {
    assert CallOk(s, c);
  }

  lemma WriteEntries(s: State, c: Call, step: Step, e: Id)
    requires Inv(s) && c in s.calls && CallStep(s, c, step).Some?
    requires step.SetAbandoned? || step.SetAnswer? || step.Close?
    ensures EntryOk(CallStep(s, c, step).value, e)
  {
    assert CallOk(s, c) && EntryOk(s, e);
  }

  lemma WaiterKeeps(s: State, c: Call, step: Step)
    requires Inv(s) && c in s.calls && CallStep(s, c, step).Some?
    requires step.Wake? || step.ReadEntry? || step.GiveUp?
    ensures Inv(CallStep(s, c, step).value)
  {
    hide CallOk, EntryOk, PcOk, SeenOk;
    var t := CallStep(s, c, step).value;
    WaiterOwn(s, c, step);
    forall d ensures CallOk(t, d) { if d != c { CallSees(s, t, d); } }
    forall e ensures EntryOk(t, e) { WaiterEntry(s, c, step, e); }
  }

  lemma WaiterOwn(s: State, c: Call, step: Step)
    requires Inv(s) && c in s.calls && CallStep(s, c, step).Some?
    requires step.Wake? || step.ReadEntry? || step.GiveUp?
    ensures CallOk(CallStep(s, c, step).value, c)
  {
    assert CallOk(s, c);
    if step.Wake? || step.ReadEntry? { assert EntryOk(s, s.calls[c].pc.e); }
  }

  lemma WaiterEntry(s: State, c: Call, step: Step, e: Id)
    requires EntryOk(s, e) && c in s.calls && CallStep(s, c, step).Some?
    requires step.Wake? || step.ReadEntry? || step.GiveUp?
    ensures EntryOk(CallStep(s, c, step).value, e)
  {
  }
}
