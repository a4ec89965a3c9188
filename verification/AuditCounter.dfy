/** Concurrent requests that write audit entries. Entries wait until the handler has returned, and take
    their ids from a counter row that stays locked until the commit
    (src/provablyfine/api/model/audit_log.py:132-204, src/provablyfine/api/context.py:21-77,
    src/provablyfine/api/dependencies.py:178-218, src/provablyfine/api/app_db.py:322-331). */
module AuditCounter {
  import opened Wrappers

  type RequestId = nat

  type Payload = string

  datatype Entry = Entry(id: nat, payload: Payload)

  /** Recording is the transaction of its own that a rejected request gets after its rollback. */
  datatype Phase = Handling | Flushing | Recording | Committed | Ended

  datatype Request = Request(
    phase: Phase,
    beforeCommit: seq<Payload>,
    afterCommit: seq<string>,
    afterRollback: seq<Payload>,
    done: nat,              // how many of the actions of the current list have run
    inserted: seq<Entry>)   // rows that its transaction has not committed

  /** What one transaction wrote, in the order in which the request asked for it. */
  datatype Block = Block(request: RequestId, recording: bool, payloads: seq<Payload>)

  /** `log` and `counter` are what is committed. `working` is the counter as the holder of the lock sees it.
      `history` and `effects` say what happened, for the statements below. */
  datatype Database = Database(
    log: seq<Entry>,
    counter: nat,
    lock: Option<RequestId>,
    working: nat,
    requests: map<RequestId, Request>,
    history: seq<Block>,
    effects: seq<(RequestId, string)>)

  datatype Step =
    | Begin(r: RequestId)
    | AddEntry(r: RequestId, payload: Payload)
    | AddEffect(r: RequestId, effect: string)
    | AddRejection(r: RequestId, payload: Payload)
    | Return(r: RequestId)
    | Insert(r: RequestId)
    | Commit(r: RequestId)
    | Effect(r: RequestId)
    | Reject(r: RequestId)
    | Fail(r: RequestId)

  predicate InTransaction(q: Request) {
    q.phase.Handling? || q.phase.Flushing? || q.phase.Recording?
  }

  predicate Enabled(s: Database, step: Step) {
    if step.Begin? then step.r !in s.requests
    else if step.r !in s.requests then false
    else
      var q := s.requests[step.r];
      match step
      case AddEntry(_, _) => q.phase.Handling?
      case AddEffect(_, _) => q.phase.Handling?
      case AddRejection(_, _) => q.phase.Handling?
      case Return(_) => q.phase.Handling?
      // The update of the counter row waits while another transaction has it locked.
      case Insert(r) => (q.phase.Flushing? || q.phase.Recording?) && q.done < |q.beforeCommit| &&
                        (s.lock.None? || s.lock == Some(r))
      case Commit(_) => (q.phase.Flushing? || q.phase.Recording?) && q.done == |q.beforeCommit|
      case Effect(_) => q.phase.Committed? && q.done < |q.afterCommit|
      case Reject(_) => q.phase.Handling? || q.phase.Flushing?
      case Fail(_) => InTransaction(q)
  }

  function Released(s: Database, r: RequestId): Database {
    if s.lock == Some(r) then s.(lock := None, working := 0) else s
  }

  function With(s: Database, r: RequestId, q: Request): Database {
    s.(requests := s.requests[r := q])
  }

  /** The next number, as the holder of the lock sees the counter. */
  function ValueFor(s: Database): nat {
    (if s.lock.None? then s.counter else s.working) + 1
  }

  /** The request has inserted its next entry, under this id. */
  function Inserted(q: Request, value: nat): Request
    requires q.done < |q.beforeCommit|
  {
    q.(done := q.done + 1, inserted := q.inserted + [Entry(value, q.beforeCommit[q.done])])
  }

  function Next(s: Database, step: Step): Database
    requires Enabled(s, step)
  {
    var r := step.r;
    match step
    case Begin(_) => With(s, r, Request(Handling, [], [], [], 0, []))
    case AddEntry(_, p) => With(s, r, s.requests[r].(beforeCommit := s.requests[r].beforeCommit + [p]))
    case AddEffect(_, e) => With(s, r, s.requests[r].(afterCommit := s.requests[r].afterCommit + [e]))
    case AddRejection(_, p) => With(s, r, s.requests[r].(afterRollback := s.requests[r].afterRollback + [p]))
    case Return(_) => With(s, r, s.requests[r].(phase := Flushing))
    case Insert(_) =>
      var value := ValueFor(s);
      With(s.(lock := Some(r), working := value), r, Inserted(s.requests[r], value))
    case Commit(_) =>
      var q := s.requests[r];
      var t := s.(log := s.log + q.inserted,
                  counter := if s.lock == Some(r) then s.working else s.counter,
                  history := s.history + [Block(r, q.phase.Recording?, q.beforeCommit)]);
      With(Released(t, r), r, q.(phase := if q.phase.Recording? then Ended else Committed, done := 0, inserted := []))
    case Effect(_) =>
      var q := s.requests[r];
      With(s.(effects := s.effects + [(r, q.afterCommit[q.done])]), r, q.(done := q.done + 1))
    case Reject(_) =>
      var q := s.requests[r];
      With(Released(s, r), r,
           if q.afterRollback == [] then Request(Ended, [], [], [], 0, [])
           else Request(Recording, q.afterRollback, [], [], 0, []))
    case Fail(_) => With(Released(s, r), r, Request(Ended, [], [], [], 0, []))
  }

  const Empty := Database([], 0, None, 0, map[], [], [])

  /** Every interleaving of the steps of any number of requests, as the lock allows. */
  ghost predicate Possible(steps: seq<Step>)
    decreases |steps|, 0
  {
    steps == [] || (Possible(steps[..|steps| - 1]) && Enabled(After(steps[..|steps| - 1]), steps[|steps| - 1]))
  }

  ghost function After(steps: seq<Step>): Database
    requires Possible(steps)
    decreases |steps|, 1
  {
    if steps == [] then Empty else Next(After(steps[..|steps| - 1]), steps[|steps| - 1])
  }

  function Payloads(history: seq<Block>): seq<Payload> {
    if history == [] then [] else Payloads(history[..|history| - 1]) + history[|history| - 1].payloads
  }

  function Numbered(ps: seq<Payload>, first: nat): (r: seq<Entry>)
    ensures |r| == |ps| && forall i :: 0 <= i < |r| ==> r[i] == Entry(first + i, ps[i])
  {
    seq(|ps|, i requires 0 <= i < |ps| => Entry(first + i, ps[i]))
  }

  lemma NumberedConcat(ps: seq<Payload>, qs: seq<Payload>, first: nat)
    ensures Numbered(ps + qs, first) == Numbered(ps, first) + Numbered(qs, first + |ps|)
  {
  }

  /** Only the holder of the lock has inserted anything, and what it inserted follows the committed log. */
  ghost predicate RequestInv(q: Request, holdsLock: bool, working: nat, counter: nat) {
    && q.done <= (if q.phase.Committed? then |q.afterCommit| else |q.beforeCommit|)
    && (q.phase.Handling? || q.phase.Ended? ==> q.done == 0)
    && (holdsLock ==> (q.phase.Flushing? || q.phase.Recording?) && working == counter + q.done)
    && (InTransaction(q) && !holdsLock ==> q.done == 0)
    && q.inserted == (if holdsLock then Numbered(q.beforeCommit[..q.done], counter + 1) else [])
  }

  /** Everything but what concerns the request `r`. */
  ghost predicate InvExcept(s: Database, r: Option<RequestId>) {
    && s.counter == |s.log|
    && s.log == Numbered(Payloads(s.history), 1)
    && (s.lock.Some? ==> s.lock.value in s.requests || s.lock == r)
    && (forall o :: o in s.requests && Some(o) != r ==>
                      RequestInv(s.requests[o], s.lock == Some(o), s.working, s.counter))
  }

  ghost predicate Inv(s: Database) {
    InvExcept(s, None)
  }

  /** Each request has committed at most one block: its entries if it went well, or those of its rejection. */
  ghost predicate HistoryInv(s: Database) {
    && (forall b :: b in s.history ==>
                      b.request in s.requests &&
                      s.requests[b.request].phase == if b.recording then Ended else Committed)
    && (forall i, j :: 0 <= i < j < |s.history| ==> s.history[i].request != s.history[j].request)
    && (forall e :: e in s.effects ==> exists b :: b in s.history && b.request == e.0 && !b.recording)
    && (forall r :: r in s.requests && s.requests[r].phase.Committed? ==>
                      exists b :: b in s.history && b.request == r && !b.recording)
  }

  lemma WithKeepsInv(s: Database, r: RequestId, q: Request)
    requires InvExcept(s, Some(r)) && RequestInv(q, s.lock == Some(r), s.working, s.counter)
    ensures Inv(With(s, r, q))
  {
  }

  lemma ReleasedKeepsInv(s: Database, r: RequestId)
    requires InvExcept(s, Some(r))
    ensures InvExcept(Released(s, r), Some(r)) && Released(s, r).lock != Some(r)
  {
  }

  lemma InsertKeepsInv(s: Database, r: RequestId)
    requires Inv(s) && Enabled(s, Insert(r))
    ensures Inv(Next(s, Insert(r)))
  {
    HolderInserts(s, r);
    LockedOthers(s, r, ValueFor(s));
    WithKeepsInv(s.(lock := Some(r), working := ValueFor(s)), r, Inserted(s.requests[r], ValueFor(s)));
  }

  lemma HolderInserts(s: Database, r: RequestId)
    requires Inv(s) && Enabled(s, Insert(r))
    ensures RequestInv(Inserted(s.requests[r], ValueFor(s)), true, ValueFor(s), s.counter)
  {
    assert RequestInv(s.requests[r], s.lock == Some(r), s.working, s.counter);
    InsertedInv(s.requests[r], s.lock == Some(r), s.working, s.counter);
  }

  lemma InsertedInv(q: Request, holdsLock: bool, working: nat, counter: nat)
    requires RequestInv(q, holdsLock, working, counter) && q.done < |q.beforeCommit|
    requires q.phase.Flushing? || q.phase.Recording?
    ensures var value := (if holdsLock then working else counter) + 1;
            RequestInv(Inserted(q, value), true, value, counter)
  {
    InsertedOneMore(q, counter);
  }

  lemma LockedOthers(s: Database, r: RequestId, value: nat)
    requires Inv(s) && (s.lock.None? || s.lock == Some(r))
    ensures InvExcept(s.(lock := Some(r), working := value), Some(r))
  {
  }

  lemma InsertedOneMore(q: Request, counter: nat)
    requires q.done < |q.beforeCommit|
    ensures Numbered(q.beforeCommit[..q.done], counter + 1) + [Entry(counter + q.done + 1, q.beforeCommit[q.done])] ==
            Numbered(q.beforeCommit[..q.done + 1], counter + 1)
    ensures q.done == 0 ==> Numbered(q.beforeCommit[..q.done], counter + 1) == []
  {
  }

  lemma CommittedIsWhole(s: Database, r: RequestId)
    requires Inv(s) && Enabled(s, Commit(r))
    ensures s.requests[r].inserted == Numbered(s.requests[r].beforeCommit, s.counter + 1)
    ensures s.lock == Some(r) ==> s.working == s.counter + |s.requests[r].beforeCommit|
    ensures s.lock != Some(r) ==> s.requests[r].beforeCommit == []
  {
    var q := s.requests[r];
    assert RequestInv(q, s.lock == Some(r), s.working, s.counter);
    assert q.beforeCommit[..q.done] == q.beforeCommit;
  }

  lemma CommitKeepsInv(s: Database, r: RequestId)
    requires Inv(s) && Enabled(s, Commit(r))
    ensures Inv(Next(s, Commit(r)))
  {
    var q := s.requests[r];
    CommittedIsWhole(s, r);
    var block := Block(r, q.phase.Recording?, q.beforeCommit);
    var t := s.(log := s.log + q.inserted,
                counter := if s.lock == Some(r) then s.working else s.counter,
                history := s.history + [block]);
    assert t.history[..|s.history|] == s.history;
    NumberedConcat(Payloads(s.history), q.beforeCommit, 1);
    CommittedOthers(s, t, r);
    ReleasedKeepsInv(t, r);
    WithKeepsInv(Released(t, r), r,
                 q.(phase := if q.phase.Recording? then Ended else Committed, done := 0, inserted := []));
  }

  lemma CommittedOthers(s: Database, t: Database, r: RequestId)
    requires Inv(s) && t.requests == s.requests && t.lock == s.lock && t.working == s.working
    requires s.lock != Some(r) ==> t.counter == s.counter
    requires t.counter == |t.log| && t.log == Numbered(Payloads(t.history), 1)
    ensures InvExcept(t, Some(r))
  {
  }

  lemma OtherStepsKeepInv(s: Database, step: Step)
    requires Inv(s) && Enabled(s, step) && !step.Insert? && !step.Commit?
    ensures Inv(Next(s, step))
  {
    var r := step.r;
    if r in s.requests {
      assert RequestInv(s.requests[r], s.lock == Some(r), s.working, s.counter);
    }
    if step.Reject? || step.Fail? {
      ReleasedKeepsInv(s, r);
      WithKeepsInv(Released(s, r), r, Next(s, step).requests[r]);
    } else {
      var t := s.(effects := Next(s, step).effects);
      assert InvExcept(t, Some(r));
      WithKeepsInv(t, r, Next(s, step).requests[r]);
    }
  }

  lemma CommitKeepsHistoryInv(s: Database, r: RequestId)
    requires HistoryInv(s) && Enabled(s, Commit(r))
    ensures HistoryInv(Next(s, Commit(r)))
  {
    var t := Next(s, Commit(r));
    var b := Block(r, s.requests[r].phase.Recording?, s.requests[r].beforeCommit);
    assert t.history == s.history + [b];
    assert b in t.history;
    forall c | c in s.history ensures c in t.history && c.request != r {
      assert c.request in s.requests;
    }
  }

  lemma EffectKeepsHistoryInv(s: Database, r: RequestId)
    requires HistoryInv(s) && Enabled(s, Effect(r))
    ensures HistoryInv(Next(s, Effect(r)))
  {
    assert Next(s, Effect(r)).effects == s.effects + [(r, s.requests[r].afterCommit[s.requests[r].done])];
  }

  lemma OtherStepsKeepHistoryInv(s: Database, step: Step)
    requires HistoryInv(s) && Enabled(s, step) && !step.Commit? && !step.Effect?
    ensures HistoryInv(Next(s, step))
  {
    var t := Next(s, step);
    forall b | b in s.history
      ensures b.request in t.requests && t.requests[b.request].phase == if b.recording then Ended else Committed
    {
      assert b.request in s.requests;
    }
  }

  lemma {:induction false} EveryRunKeepsInv(steps: seq<Step>)
    requires Possible(steps)
    ensures Inv(After(steps)) && HistoryInv(After(steps))
  {
    if steps != [] {
      var s, step := After(steps[..|steps| - 1]), steps[|steps| - 1];
      EveryRunKeepsInv(steps[..|steps| - 1]);
      if step.Commit? {
        CommitKeepsHistoryInv(s, step.r);
        CommitKeepsInv(s, step.r);
      } else {
        if step.Effect? {
          EffectKeepsHistoryInv(s, step.r);
        } else {
          OtherStepsKeepHistoryInv(s, step);
        }
        if step.Insert? {
          InsertKeepsInv(s, step.r);
        } else {
          OtherStepsKeepInv(s, step);
        }
      }
    }
  }

  /** In every interleaving, the committed entries are the blocks of the transactions that committed, in commit
      order, each whole and in the order of its request, and they are numbered 1..n without a hole. */
  lemma LogIsNumberedBlocks(steps: seq<Step>)
    requires Possible(steps)
    ensures var s := After(steps);
            && s.log == Numbered(Payloads(s.history), 1)
            && (forall i :: 0 <= i < |s.log| ==> s.log[i].id == i + 1)
            && s.counter == |s.log|
  {
    EveryRunKeepsInv(steps);
  }

  /** A request commits once: what its handler asked for, or after a rejection what it left to record.
      A mail or another outside effect only happens for a request that has committed. */
  lemma OneBlockPerRequest(steps: seq<Step>)
    requires Possible(steps)
    ensures var s := After(steps);
            && (forall i, j :: 0 <= i < j < |s.history| ==> s.history[i].request != s.history[j].request)
            && (forall e :: e in s.effects ==> exists b :: b in s.history && b.request == e.0 && !b.recording)
  {
    EveryRunKeepsInv(steps);
  }

  /** The block that a request commits is exactly what it asked for while its handler ran. */
  lemma CommitWritesTheWholeBlock(steps: seq<Step>, r: RequestId)
    requires Possible(steps) && Enabled(After(steps), Commit(r))
    ensures var s, t := After(steps), Next(After(steps), Commit(r));
            t.log == s.log + Numbered(s.requests[r].beforeCommit, |s.log| + 1)
  {
    EveryRunKeepsInv(steps);
    CommittedIsWhole(After(steps), r);
  }

  // ---- What the requests asked for, read off the steps themselves ----

  function Asked(steps: seq<Step>, r: RequestId): seq<Payload> {
    if steps == [] then []
    else
      var last := steps[|steps| - 1];
      Asked(steps[..|steps| - 1], r) + if last.AddEntry? && last.r == r then [last.payload] else []
  }

  function AskedOnRejection(steps: seq<Step>, r: RequestId): seq<Payload> {
    if steps == [] then []
    else
      var last := steps[|steps| - 1];
      AskedOnRejection(steps[..|steps| - 1], r) + if last.AddRejection? && last.r == r then [last.payload] else []
  }

  ghost predicate RequestAsked(steps: seq<Step>, r: RequestId, q: Request) {
    && (q.phase.Handling? || q.phase.Flushing? ==>
          q.beforeCommit == Asked(steps, r) && q.afterRollback == AskedOnRejection(steps, r))
    && (q.phase.Recording? ==> q.beforeCommit == AskedOnRejection(steps, r))
  }

  ghost predicate AskedInv(steps: seq<Step>, s: Database) {
    && (forall r :: r !in s.requests ==> Asked(steps, r) == [] && AskedOnRejection(steps, r) == [])
    && (forall r :: r in s.requests ==> RequestAsked(steps, r, s.requests[r]))
    && (forall b :: b in s.history ==>
                      b.payloads == if b.recording then AskedOnRejection(steps, b.request) else Asked(steps, b.request))
  }

  lemma OneMoreAsked(steps: seq<Step>, step: Step, r: RequestId)
    ensures Asked(steps + [step], r) ==
            if step.AddEntry? && step.r == r then Asked(steps, r) + [step.payload] else Asked(steps, r)
    ensures AskedOnRejection(steps + [step], r) ==
            if step.AddRejection? && step.r == r then AskedOnRejection(steps, r) + [step.payload]
            else AskedOnRejection(steps, r)
  {
    assert (steps + [step])[..|steps|] == steps;
    assert Asked(steps, r) + [] == Asked(steps, r) && AskedOnRejection(steps, r) + [] == AskedOnRejection(steps, r);
  }

  lemma OthersKeepAsked(steps: seq<Step>, s: Database, step: Step, r: RequestId)
    requires Enabled(s, step) && r != step.r && r in s.requests && RequestAsked(steps, r, s.requests[r])
    ensures RequestAsked(steps + [step], r, Next(s, step).requests[r])
  {
    OneMoreAsked(steps, step, r);
    assert Next(s, step).requests[r] == s.requests[r];
  }

  /** The steps that add to one of the lists, or that begin a request. */
  lemma AskingKeepsAsked(steps: seq<Step>, s: Database, step: Step)
    requires Enabled(s, step) && (step.AddEntry? || step.AddRejection? || step.Begin?)
    requires if step.r in s.requests then RequestAsked(steps, step.r, s.requests[step.r])
             else Asked(steps, step.r) == [] && AskedOnRejection(steps, step.r) == []
    ensures RequestAsked(steps + [step], step.r, Next(s, step).requests[step.r])
  {
    OneMoreAsked(steps, step, step.r);
  }

  lemma WorkingKeepsAsked(steps: seq<Step>, s: Database, step: Step)
    requires Enabled(s, step) && !step.AddEntry? && !step.AddRejection? && !step.Begin?
    requires RequestAsked(steps, step.r, s.requests[step.r])
    ensures RequestAsked(steps + [step], step.r, Next(s, step).requests[step.r])
  {
    OneMoreAsked(steps, step, step.r);
  }

  lemma RequestKeepsAsked(steps: seq<Step>, s: Database, step: Step, r: RequestId)
    requires AskedInv(steps, s) && Enabled(s, step)
    requires r in Next(s, step).requests
    ensures RequestAsked(steps + [step], r, Next(s, step).requests[r])
  {
    if r != step.r {
      OthersKeepAsked(steps, s, step, r);
    } else if step.AddEntry? || step.AddRejection? || step.Begin? {
      AskingKeepsAsked(steps, s, step);
    } else {
      WorkingKeepsAsked(steps, s, step);
    }
  }

  lemma StepKeepsAsked(steps: seq<Step>, s: Database, step: Step)
    requires AskedInv(steps, s) && HistoryInv(s) && Enabled(s, step)
    ensures AskedInv(steps + [step], Next(s, step))
  {
    var t := Next(s, step);
    forall r | r !in t.requests ensures Asked(steps + [step], r) == [] && AskedOnRejection(steps + [step], r) == [] {
      OneMoreAsked(steps, step, r);
    }
    forall r | r in t.requests ensures RequestAsked(steps + [step], r, t.requests[r]) {
      RequestKeepsAsked(steps, s, step, r);
    }
    BlocksKeepAsked(steps, s, step);
  }

  lemma BlocksKeepAsked(steps: seq<Step>, s: Database, step: Step)
    requires AskedInv(steps, s) && HistoryInv(s) && Enabled(s, step)
    ensures forall b :: b in Next(s, step).history ==>
              b.payloads ==
              if b.recording then AskedOnRejection(steps + [step], b.request) else Asked(steps + [step], b.request)
  {
    var t := Next(s, step);
    forall b | b in t.history
      ensures b.payloads ==
              if b.recording then AskedOnRejection(steps + [step], b.request) else Asked(steps + [step], b.request)
    {
      OneMoreAsked(steps, step, b.request);
      if b in s.history {
        assert b.request in s.requests;
      } else {
        assert RequestAsked(steps, step.r, s.requests[step.r]);
      }
    }
  }

  lemma {:induction false} EveryRunKeepsAsked(steps: seq<Step>)
    requires Possible(steps)
    ensures AskedInv(steps, After(steps))
  {
    if steps != [] {
      var before, step := steps[..|steps| - 1], steps[|steps| - 1];
      EveryRunKeepsAsked(before);
      AskedOneStepOn(before, step);
      assert before + [step] == steps;
    }
  }

  lemma AskedOneStepOn(before: seq<Step>, step: Step)
    requires Possible(before) && AskedInv(before, After(before)) && Enabled(After(before), step)
    ensures AskedInv(before + [step], Next(After(before), step))
  {
    EveryRunKeepsInv(before);
    StepKeepsAsked(before, After(before), step);
  }

  /** What a request has committed is what it asked for: every entry of its handler, in order, or if it was
      rejected everything that it left to record. */
  lemma BlocksAreWhatWasAsked(steps: seq<Step>, b: Block)
    requires Possible(steps) && b in After(steps).history
    ensures b.payloads == if b.recording then AskedOnRejection(steps, b.request) else Asked(steps, b.request)
  {
    EveryRunKeepsAsked(steps);
  }

  // ---- What a request that may go on commits ----

  predicate AtTheCounter(q: Request) {
    q.phase.Flushing? || q.phase.Recording?
  }

  function Inserts(r: RequestId, n: nat): seq<Step> {
    seq(n, i => Insert(r))
  }

  lemma OneMoreStep(steps: seq<Step>, step: Step)
    requires Possible(steps) && Enabled(After(steps), step)
    ensures Possible(steps + [step]) && After(steps + [step]) == Next(After(steps), step)
  {
    assert (steps + [step])[..|steps|] == steps;
  }

  /** Inserting so many entries and committing is possible, and puts exactly these into the log. */
  ghost predicate Commits(steps: seq<Step>, r: RequestId, n: nat, entries: seq<Payload>)
    requires Possible(steps)
  {
    var all := steps + Inserts(r, n) + [Commit(r)];
    Possible(all) && After(all).log == After(steps).log + Numbered(entries, |After(steps).log| + 1)
  }

  /** The request can have the lock, and has this list, of which so many entries are left to insert. */
  ghost predicate Ready(s: Database, r: RequestId, left: nat, entries: seq<Payload>) {
    && r in s.requests && AtTheCounter(s.requests[r]) && (s.lock.None? || s.lock == Some(r))
    && s.requests[r].beforeCommit == entries && |entries| == s.requests[r].done + left
  }

  lemma InsertsOne(s: Database, r: RequestId, left: nat, entries: seq<Payload>)
    requires Ready(s, r, left, entries) && left > 0
    ensures Enabled(s, Insert(r))
    ensures Ready(Next(s, Insert(r)), r, left - 1, entries) && Next(s, Insert(r)).log == s.log
  {
  }

  lemma CommitsAll(s: Database, r: RequestId, entries: seq<Payload>)
    requires Inv(s) && Ready(s, r, 0, entries)
    ensures Enabled(s, Commit(r)) && Next(s, Commit(r)).log == s.log + Numbered(entries, |s.log| + 1)
  {
    CommittedIsWhole(s, r);
  }

  lemma InsertFirst(steps: seq<Step>, r: RequestId, n: nat, entries: seq<Payload>)
    requires Possible(steps) && Possible(steps + [Insert(r)])
    requires After(steps + [Insert(r)]).log == After(steps).log
    requires Commits(steps + [Insert(r)], r, n, entries)
    ensures Commits(steps, r, n + 1, entries)
  {
    assert steps + [Insert(r)] + Inserts(r, n) == steps + Inserts(r, n + 1);
  }

  lemma CommitNow(steps: seq<Step>, r: RequestId, entries: seq<Payload>)
    requires Possible(steps) && Ready(After(steps), r, 0, entries)
    ensures Commits(steps, r, 0, entries)
  {
    EveryRunKeepsInv(steps);
    CommitsAll(After(steps), r, entries);
    OneMoreStep(steps, Commit(r));
    assert steps + Inserts(r, 0) == steps;
  }

  /** With the lock free or its own, a request can insert all that it has left, and commit: its whole list is then in
      the log, under the next numbers. */
  lemma {:induction false} CanFinish(steps: seq<Step>, r: RequestId, left: nat, entries: seq<Payload>)
    requires Possible(steps) && Ready(After(steps), r, left, entries)
    ensures Commits(steps, r, left, entries)
    decreases left
  {
    if left == 0 {
      CommitNow(steps, r, entries);
    } else {
      InsertsOne(After(steps), r, left, entries);
      OneMoreStep(steps, Insert(r));
      CanFinish(steps + [Insert(r)], r, left - 1, entries);
      InsertFirst(steps, r, left - 1, entries);
    }
  }

  predicate NoStepOf(steps: seq<Step>, r: RequestId) {
    forall step :: step in steps ==> step.r != r
  }

  /** What the others do leaves a request as it is. */
  lemma {:induction false} OthersLeaveItAlone(steps: seq<Step>, others: seq<Step>, r: RequestId)
    requires Possible(steps + others) && NoStepOf(others, r)
    ensures Possible(steps)
    ensures r in After(steps).requests ==>
              r in After(steps + others).requests && After(steps + others).requests[r] == After(steps).requests[r]
    decreases |others|
  {
    if others == [] {
      assert steps + others == steps;
    } else {
      var init, last := others[..|others| - 1], others[|others| - 1];
      assert (steps + others)[..|steps + others| - 1] == steps + init && last in others;
      OthersLeaveItAlone(steps, init, r);
    }
  }

  lemma ReturnKeepsTheList(s: Database, r: RequestId)
    requires Inv(s) && Enabled(s, Return(r))
    ensures var q, t := s.requests[r], Next(s, Return(r));
            r in t.requests && AtTheCounter(t.requests[r]) && t.requests[r].beforeCommit == q.beforeCommit &&
            t.requests[r].done == 0
  {
    assert RequestInv(s.requests[r], s.lock == Some(r), s.working, s.counter);
  }

  /** However long it has to wait for the counter, a request whose handler has returned can commit exactly what the
      handler asked for. */
  lemma ReturnedCanCommit(steps: seq<Step>, others: seq<Step>, r: RequestId)
    requires Possible(steps) && Enabled(After(steps), Return(r)) && NoStepOf(others, r)
    requires Possible(steps + [Return(r)] + others) && After(steps + [Return(r)] + others).lock.None?
    ensures Commits(steps + [Return(r)] + others, r, |Asked(steps, r)|, Asked(steps, r))
  {
    EveryRunKeepsAsked(steps);
    EveryRunKeepsInv(steps);
    assert RequestAsked(steps, r, After(steps).requests[r]);
    ReturnKeepsTheList(After(steps), r);
    OneMoreStep(steps, Return(r));
    OthersLeaveItAlone(steps + [Return(r)], others, r);
    CanFinish(steps + [Return(r)] + others, r, |Asked(steps, r)|, Asked(steps, r));
  }

  lemma RejectKeepsTheRecord(steps: seq<Step>, s: Database, r: RequestId)
    requires AskedInv(steps, s) && Enabled(s, Reject(r)) && AskedOnRejection(steps, r) != []
    ensures var t := Next(s, Reject(r));
            r in t.requests && AtTheCounter(t.requests[r]) &&
            t.requests[r].beforeCommit == AskedOnRejection(steps, r) && t.requests[r].done == 0
  {
    assert RequestAsked(steps, r, s.requests[r]);
  }

  /** Nor is a rejection lost: a rejected request that left something to record can insert it, however long it has to
      wait for the counter, and what it then commits is exactly that. */
  lemma RejectionCanBeRecorded(steps: seq<Step>, others: seq<Step>, r: RequestId)
    requires Possible(steps) && Enabled(After(steps), Reject(r)) && AskedOnRejection(steps, r) != []
    requires NoStepOf(others, r)
    requires Possible(steps + [Reject(r)] + others) && After(steps + [Reject(r)] + others).lock.None?
    ensures Commits(steps + [Reject(r)] + others, r, |AskedOnRejection(steps, r)|, AskedOnRejection(steps, r))
  {
    EveryRunKeepsAsked(steps);
    RejectKeepsTheRecord(steps, After(steps), r);
    OneMoreStep(steps, Reject(r));
    OthersLeaveItAlone(steps + [Reject(r)], others, r);
    CanFinish(steps + [Reject(r)] + others, r, |AskedOnRejection(steps, r)|, AskedOnRejection(steps, r));
  }

  function AddEntries(r: RequestId, entries: seq<Payload>): seq<Step> {
    seq(|entries|, i requires 0 <= i < |entries| => AddEntry(r, entries[i]))
  }

  ghost predicate StillHandling(steps: seq<Step>, r: RequestId)
    requires Possible(steps)
  {
    r in After(steps).requests && After(steps).requests[r].phase.Handling?
  }

  /** Still in its handler, the request has asked for these entries, and nothing else has changed. */
  ghost predicate AsksFor(steps: seq<Step>, all: seq<Step>, r: RequestId, entries: seq<Payload>)
    requires Possible(steps) && Possible(all)
  {
    && StillHandling(all, r) && Asked(all, r) == entries
    && After(all).lock == After(steps).lock && After(all).log == After(steps).log
  }

  lemma AsksOnce(steps: seq<Step>, r: RequestId, entry: Payload)
    requires Possible(steps) && StillHandling(steps, r)
    ensures var all := steps + [AddEntry(r, entry)];
            Possible(all) && AsksFor(steps, all, r, Asked(steps, r) + [entry])
  {
    OneMoreStep(steps, AddEntry(r, entry));
    OneMoreAsked(steps, AddEntry(r, entry), r);
  }

  lemma {:induction false} HandlerAsks(steps: seq<Step>, r: RequestId, entries: seq<Payload>)
    requires Possible(steps) && StillHandling(steps, r)
    ensures var all := steps + AddEntries(r, entries);
            Possible(all) && AsksFor(steps, all, r, Asked(steps, r) + entries)
    decreases |entries|
  {
    if entries == [] {
      assert steps + AddEntries(r, entries) == steps && Asked(steps, r) + entries == Asked(steps, r);
    } else {
      var once := steps + [AddEntry(r, entries[0])];
      AsksOnce(steps, r, entries[0]);
      HandlerAsks(once, r, entries[1..]);
      FirstEntry(steps, r, entries);
      assert Asked(steps, r) + entries == Asked(steps, r) + [entries[0]] + entries[1..];
    }
  }

  lemma FirstEntry(steps: seq<Step>, r: RequestId, entries: seq<Payload>)
    requires entries != []
    ensures steps + AddEntries(r, entries) == steps + [AddEntry(r, entries[0])] + AddEntries(r, entries[1..])
  {
  }

  lemma Begins(steps: seq<Step>, r: RequestId)
    requires Possible(steps) && r !in After(steps).requests
    ensures var all := steps + [Begin(r)];
            && Possible(all) && StillHandling(all, r) && Asked(all, r) == []
            && After(all).lock == After(steps).lock && After(all).log == After(steps).log
  {
    EveryRunKeepsAsked(steps);
    OneMoreStep(steps, Begin(r));
    OneMoreAsked(steps, Begin(r), r);
  }

  lemma Returns(steps: seq<Step>, r: RequestId)
    requires Possible(steps) && StillHandling(steps, r)
    ensures var all := steps + [Return(r)];
            Enabled(After(steps), Return(r)) && Possible(all) &&
            After(all).lock == After(steps).lock && After(all).log == After(steps).log
  {
    OneMoreStep(steps, Return(r));
  }

  /** A handler can always ask for more, return, be rejected or fail, and after its return it can still be rejected or
      fail. What follows a rejection can only fail. */
  lemma WhatMayHappen(steps: seq<Step>, r: RequestId, payload: Payload, effect: string)
    requires Possible(steps) && r in After(steps).requests
    ensures var s, phase := After(steps), After(steps).requests[r].phase;
            && (phase.Handling? <==> Enabled(s, AddEntry(r, payload)))
            && (phase.Handling? <==> Enabled(s, AddEffect(r, effect)))
            && (phase.Handling? <==> Enabled(s, AddRejection(r, payload)))
            && (phase.Handling? <==> Enabled(s, Return(r)))
            && (phase.Handling? || phase.Flushing? <==> Enabled(s, Reject(r)))
            && (phase.Handling? || phase.Flushing? || phase.Recording? <==> Enabled(s, Fail(r)))
  {
  }

  /** From beginning to end: whenever the lock is free, a new request can put any entries into the log, and nothing
      else. */
  lemma NewRequestCanCommit(steps: seq<Step>, r: RequestId, entries: seq<Payload>)
    requires Possible(steps) && r !in After(steps).requests && After(steps).lock.None?
    ensures var returned := steps + [Begin(r)] + AddEntries(r, entries) + [Return(r)];
            Possible(returned) && After(returned).log == After(steps).log && Commits(returned, r, |entries|, entries)
  {
    Begins(steps, r);
    HandlerAsks(steps + [Begin(r)], r, entries);
    var asked := steps + [Begin(r)] + AddEntries(r, entries);
    assert Asked(asked, r) == entries;
    Returns(asked, r);
    assert asked + [Return(r)] + [] == asked + [Return(r)];
    ReturnedCanCommit(asked, [], r);
  }

  /** A request that has failed, or has nothing left to do after a rejection, is over: it never does anything again. */
  lemma {:induction false} EndedIsOver(steps: seq<Step>, later: seq<Step>, r: RequestId)
    requires Possible(steps + later) && Possible(steps)
    requires r in After(steps).requests && After(steps).requests[r].phase.Ended?
    ensures NoStepOf(later, r)
    decreases |later|
  {
    if later != [] {
      var init, last := later[..|later| - 1], later[|later| - 1];
      assert (steps + later)[..|steps + later| - 1] == steps + init && later == init + [last];
      EndedIsOver(steps, init, r);
      OthersLeaveItAlone(steps, init, r);
    }
  }

  lemma FailedIsOver(steps: seq<Step>, later: seq<Step>, r: RequestId)
    requires Possible(steps) && Enabled(After(steps), Fail(r)) && Possible(steps + [Fail(r)] + later)
    ensures NoStepOf(later, r)
  {
    OneMoreStep(steps, Fail(r));
    EndedIsOver(steps + [Fail(r)], later, r);
  }

  // ---- Outside effects ----

  function AskedEffects(steps: seq<Step>, r: RequestId): seq<string> {
    if steps == [] then []
    else
      var last := steps[|steps| - 1];
      var before := AskedEffects(steps[..|steps| - 1], r);
      if last.AddEffect? && last.r == r then before + [last.effect] else before
  }

  /** What was done for a request, in order. */
  function Done(effects: seq<(RequestId, string)>, r: RequestId): seq<string> {
    if effects == [] then []
    else
      var last := effects[|effects| - 1];
      var before := Done(effects[..|effects| - 1], r);
      if last.0 == r then before + [last.1] else before
  }

  ghost predicate EffectsOf(steps: seq<Step>, s: Database, r: RequestId) {
    if r !in s.requests then AskedEffects(steps, r) == [] && Done(s.effects, r) == []
    else
      var q := s.requests[r];
      && (q.phase.Handling? || q.phase.Flushing? || q.phase.Committed? ==> q.afterCommit == AskedEffects(steps, r))
      && (q.phase.Committed? ==> q.done <= |q.afterCommit| && Done(s.effects, r) == q.afterCommit[..q.done])
      && (!q.phase.Committed? ==> Done(s.effects, r) == [])
  }

  lemma OneMoreEffect(steps: seq<Step>, s: Database, step: Step, r: RequestId)
    requires EffectsOf(steps, s, r) && Enabled(s, step)
    ensures EffectsOf(steps + [step], Next(s, step), r)
  {
    assert (steps + [step])[..|steps|] == steps;
    if step.Effect? {
      var q := s.requests[step.r];
      assert Next(s, step).effects[..|s.effects|] == s.effects;
      assert q.afterCommit[..q.done + 1] == q.afterCommit[..q.done] + [q.afterCommit[q.done]];
    }
  }

  lemma {:induction false} EveryRunKeepsEffects(steps: seq<Step>, r: RequestId)
    requires Possible(steps)
    ensures EffectsOf(steps, After(steps), r)
  {
    if steps != [] {
      var before, step := steps[..|steps| - 1], steps[|steps| - 1];
      EveryRunKeepsEffects(before, r);
      OneMoreEffect(before, After(before), step, r);
      assert before + [step] == steps;
    }
  }

  /** The outside effects of a request are those that it asked for, in order. Those that are missing are still to come
      for a request that has committed, and there are none for any other. */
  lemma EffectsAreWhatWasAsked(steps: seq<Step>, r: RequestId)
    requires Possible(steps)
    ensures var s := After(steps);
            var done, asked := Done(s.effects, r), AskedEffects(steps, r);
            if r in s.requests && s.requests[r].phase.Committed?
            then done <= asked && (done != asked ==> Enabled(s, Effect(r))) else done == []
  {
    EveryRunKeepsEffects(steps, r);
  }

  /** A rollback gives the numbers back at once, whether the request failed or was rejected. */
  lemma RollbackGivesTheNumbersBack(steps: seq<Step>, step: Step)
    requires Possible(steps) && Enabled(After(steps), step) && (step.Fail? || step.Reject?)
    ensures var s, t := After(steps), Next(After(steps), step);
            t.log == s.log && t.counter == |t.log| && t.lock != Some(step.r)
  {
    EveryRunKeepsInv(steps);
  }

  // ---- A request that commits nothing leaves no trace ----

  function Without(steps: seq<Step>, r: RequestId): seq<Step> {
    if steps == [] then []
    else
      var last := steps[|steps| - 1];
      Without(steps[..|steps| - 1], r) + if last.r == r then [] else [last]
  }

  /** The state without the request and without its hold on the counter. */
  function Erased(s: Database, r: RequestId): Database {
    var idle := s.lock.None? || s.lock == Some(r);
    s.(lock := if idle then None else s.lock, working := if idle then 0 else s.working, requests := s.requests - {r})
  }

  lemma ErasedOwnStep(s: Database, step: Step)
    requires Enabled(s, step) && !step.Commit? && !step.Effect?
    ensures Erased(Next(s, step), step.r) == Erased(s, step.r)
  {
    var t := Next(s, step);
    assert t.requests - {step.r} == s.requests - {step.r};
  }

  lemma ErasedOtherStep(s: Database, step: Step, r: RequestId)
    requires Enabled(s, step) && step.r != r
    ensures Enabled(Erased(s, r), step) && Next(Erased(s, r), step) == Erased(Next(s, step), r)
  {
    var o := step.r;
    assert o in s.requests ==> Erased(s, r).requests[o] == s.requests[o];
    assert Next(s, step).requests == s.requests[o := Next(s, step).requests[o]];
    assert s.requests[o := Next(s, step).requests[o]] - {r} == (s.requests - {r})[o := Next(s, step).requests[o]];
  }

  /** Take away every step of a request that has committed nothing: what is left is a possible run, and everything that
      the others did, and got, is the same. */
  lemma {:induction false} NothingCommittedLeavesNoTrace(steps: seq<Step>, r: RequestId)
    requires Possible(steps) && forall b :: b in After(steps).history ==> b.request != r
    ensures Possible(Without(steps, r)) && After(Without(steps, r)) == Erased(After(steps), r)
  {
    if steps == [] {
      assert Empty.requests - {r} == Empty.requests;
    } else {
      var before, step := steps[..|steps| - 1], steps[|steps| - 1];
      var s := After(before);
      assert forall b :: b in s.history ==> b in Next(s, step).history;
      NothingCommittedLeavesNoTrace(before, r);
      var left := Without(before, r);
      if step.r == r {
        EveryRunKeepsInv(before);
        assert Next(s, step).history == After(steps).history;
        if step.Commit? || step.Effect? {
          CommitShows(s, step);
          assert false;
        }
        ErasedOwnStep(s, step);
        assert left + [] == left;
      } else {
        ErasedOtherStep(s, step, r);
        assert (left + [step])[..|left|] == left;
      }
    }
  }

  lemma CommitShows(s: Database, step: Step)
    requires HistoryInv(s) && Enabled(s, step) && (step.Commit? || step.Effect?)
    ensures exists b :: b in Next(s, step).history && b.request == step.r
  {
    if step.Commit? {
      var history := Next(s, step).history;
      assert history[|history| - 1] in history;
    }
  }

  lemma {:induction false} LogOnlyGrows(earlier: seq<Step>, later: seq<Step>)
    requires Possible(later) && earlier <= later
    ensures Possible(earlier) && After(earlier).log <= After(later).log
    decreases |later|
  {
    if earlier == later {
    } else {
      var init := later[..|later| - 1];
      assert earlier <= init;
      LogOnlyGrows(earlier, init);
    }
  }

  /** A reader that has seen entry `n` has seen every entry below it, and no later commit changes that. */
  lemma SeenMeansSeenAllBelow(earlier: seq<Step>, later: seq<Step>, n: nat, m: nat)
    requires Possible(later) && earlier <= later && Possible(earlier)
    requires exists e :: e in After(earlier).log && e.id == n
    requires 1 <= m <= n
    ensures exists e :: e in After(earlier).log && e.id == m
    ensures forall e :: e in After(later).log && e.id == m ==> e in After(earlier).log
  {
    LogOnlyGrows(earlier, later);
    LogIsNumberedBlocks(earlier);
    LogIsNumberedBlocks(later);
    var before, after := After(earlier).log, After(later).log;
    assert before[m - 1].id == m && before[m - 1] in before;
    forall e | e in after && e.id == m ensures e in before {
      var i :| 0 <= i < |after| && after[i] == e;
      assert i == m - 1 && before[i] == after[i];
    }
  }

  /** Waiting for the counter never blocks everyone: whoever holds the lock can go on. */
  lemma SomeoneCanGoOn(steps: seq<Step>, waiting: RequestId)
    requires Possible(steps)
    requires waiting in After(steps).requests && AtTheCounter(After(steps).requests[waiting])
    ensures var s := After(steps);
            exists r :: (r == waiting || s.lock == Some(r)) && (Enabled(s, Insert(r)) || Enabled(s, Commit(r)))
  {
    EveryRunKeepsInv(steps);
    HolderCanGoOn(After(steps), waiting);
  }

  lemma HolderCanGoOn(s: Database, waiting: RequestId)
    requires Inv(s) && waiting in s.requests && AtTheCounter(s.requests[waiting])
    ensures var r := if s.lock.Some? then s.lock.value else waiting;
            Enabled(s, Insert(r)) || Enabled(s, Commit(r))
  {
    var r := if s.lock.Some? then s.lock.value else waiting;
    assert RequestInv(s.requests[r], s.lock == Some(r), s.working, s.counter);
  }

  // ---- The code, one step at a time ----

  class AuditDatabase {
    var log: seq<Entry>
    var counter: nat
    var lock: Option<RequestId>
    var working: nat
    var requests: map<RequestId, Request>
    ghost var history: seq<Block>
    var effects: seq<(RequestId, string)>

    ghost function Abs(): Database
      reads this
    {
      Database(log, counter, lock, working, requests, history, effects)
    }

    constructor ()
      ensures Abs() == Empty
    {
      log, counter, lock, working, requests, history, effects := [], 0, None, 0, map[], [], [];
    }

    method BeginRequest(r: RequestId)
      requires Enabled(Abs(), Begin(r))
      modifies this
      ensures Abs() == Next(old(Abs()), Begin(r))
    {
      requests := requests[r := Request(Handling, [], [], [], 0, [])];
    }

    /** Write an audit entry from a handler: it waits for the end of the request. */
    method CreateEntry(r: RequestId, payload: Payload)
      requires Enabled(Abs(), AddEntry(r, payload))
      modifies this
      ensures Abs() == Next(old(Abs()), AddEntry(r, payload))
    {
      var q := requests[r];
      requests := requests[r := q.(beforeCommit := q.beforeCommit + [payload])];
    }

    method CreateAfterRollback(r: RequestId, payload: Payload)
      requires Enabled(Abs(), AddRejection(r, payload))
      modifies this
      ensures Abs() == Next(old(Abs()), AddRejection(r, payload))
    {
      var q := requests[r];
      requests := requests[r := q.(afterRollback := q.afterRollback + [payload])];
    }

    method AfterCommit(r: RequestId, effect: string)
      requires Enabled(Abs(), AddEffect(r, effect))
      modifies this
      ensures Abs() == Next(old(Abs()), AddEffect(r, effect))
    {
      var q := requests[r];
      requests := requests[r := q.(afterCommit := q.afterCommit + [effect])];
    }

    method HandlerReturns(r: RequestId)
      requires Enabled(Abs(), Return(r))
      modifies this
      ensures Abs() == Next(old(Abs()), Return(r))
    {
      requests := requests[r := requests[r].(phase := Flushing)];
    }

    /** Increment the counter row, read it back, and insert the entry under that id. */
    method InsertEntry(r: RequestId)
      requires Enabled(Abs(), Insert(r))
      modifies this
      ensures Abs() == Next(old(Abs()), Insert(r))
    {
      if lock.None? {
        working := counter;
        lock := Some(r);
      }
      working := working + 1;
      var value := working;
      var q := requests[r];
      var entry := Entry(value, q.beforeCommit[q.done]);
      requests := requests[r := q.(inserted := q.inserted + [entry], done := q.done + 1)];
    }

    method ReleaseLock(r: RequestId)
      modifies this`lock, this`working
      ensures Abs() == Released(old(Abs()), r)
    {
      if lock == Some(r) {
        lock, working := None, 0;
      }
    }

    method CommitRequest(r: RequestId)
      requires Enabled(Abs(), Commit(r))
      modifies this
      ensures Abs() == Next(old(Abs()), Commit(r))
    {
      var q := requests[r];
      log := log + q.inserted;
      if lock == Some(r) {
        counter := working;
      }
      history := history + [Block(r, q.phase.Recording?, q.beforeCommit)];
      ReleaseLock(r);
      var phase := if q.phase.Recording? then Ended else Committed;
      requests := requests[r := q.(phase := phase, done := 0, inserted := [])];
    }

    method RunAfterCommit(r: RequestId)
      requires Enabled(Abs(), Effect(r))
      modifies this
      ensures Abs() == Next(old(Abs()), Effect(r))
    {
      var q := requests[r];
      effects := effects + [(r, q.afterCommit[q.done])];
      requests := requests[r := q.(done := q.done + 1)];
    }

    /** The request is rejected: everything is rolled back, and what it left to record gets its own transaction. */
    method RejectRequest(r: RequestId)
      requires Enabled(Abs(), Reject(r))
      modifies this
      ensures Abs() == Next(old(Abs()), Reject(r))
    {
      var recording := requests[r].afterRollback;
      ReleaseLock(r);
      if recording == [] {
        requests := requests[r := Request(Ended, [], [], [], 0, [])];
      } else {
        requests := requests[r := Request(Recording, recording, [], [], 0, [])];
      }
    }

    method FailRequest(r: RequestId)
      requires Enabled(Abs(), Fail(r))
      modifies this
      ensures Abs() == Next(old(Abs()), Fail(r))
    {
      ReleaseLock(r);
      requests := requests[r := Request(Ended, [], [], [], 0, [])];
    }
  }
}
