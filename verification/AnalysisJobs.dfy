/** `services/analysis`: requests, expiry and background runs interleaved, one database commit or read at a time. */
module AnalysisJobs {
  import opened Basics
  import Sorting

  const STALE_AFTER := 15

  // ----- the table

  datatype Status = Pending | Running | Done | Failed {
    /** `IN_PROGRESS` */
    predicate Active() { Pending? || Running? }
  }

  datatype Report = Report(level: string, reliable: bool, usedLlm: bool, body: string)

  /** A `review_predictions` row. */
  datatype Row = Row(
    submission: int,
    status: Status,
    report: Option<Report>,
    level: Option<string>,
    reliable: Option<bool>,
    source: string,
    error: Option<string>,
    progress: seq<string>,
    created: int,
    completed: Option<int>)

  /** Where a request, or the background run it started, stands between two database accesses. */
  datatype Process =
    | Looking(sub: int, poll: bool)                 // `expire_stale`: about to read the active row
    | Expiring(sub: int, poll: bool, target: int)   // about to write it off
    | Checking(sub: int)                            // `start_prediction`: is one in progress?
    | Inserting(sub: int)                           // about to insert a pending row
    | Retrying(sub: int)                            // the insert was refused
    | Answered(id: int, created: bool)              // the response; the background task is not yet running
    | Loading(id: int)                              // `run_analysis`
    | LoadingSubmission(id: int, sub: int)
    | MarkingOrphan(id: int)
    | MarkingRunning(id: int)
    | Analysing(id: int, recorded: seq<string>)
    | Reporting(id: int, recorded: seq<string>, report: Report)
    | MarkingFailed(id: int, recorded: seq<string>)
    | Ended

  /** `issued` and `handed` remember every row id ever made and every `run_analysis` call, in order. */
  datatype State = State(
    rows: map<int, Row>,
    submissions: set<int>,
    now: int,
    processes: map<int, Process>,
    issued: set<int>,
    handed: seq<int>)

  datatype Analysis = Emit(event: string) | Finish(report: Report) | Break

  /** What the environment decides: the row a query returns, a fresh id, and what `analyze` does next. */
  datatype Choice = Choice(found: int, freshId: int, next: Analysis)

  datatype Action =
    | Arrive(p: int, sub: int, poll: bool)
    | Advance(p: int, choice: Choice)
    | Crash(p: int)
    | Tick(minutes: nat)
    | Upload(sub: int)
    | Delete(sub: int)

  function ActiveIds(rows: map<int, Row>, sub: int): set<int> {
    set id | id in rows && rows[id].submission == sub && rows[id].status.Active()
  }

  function To(s: State, p: int, process: Process): State {
    s.(processes := s.processes[p := process])
  }

  function Put(s: State, id: int, row: Row): State {
    s.(rows := s.rows[id := row])
  }

  function FailedRow(row: Row, message: string, now: int): Row {
    row.(status := Failed, error := Some(message), completed := Some(now))
  }

  function DoneRow(row: Row, r: Report, now: int): Row {
    row.(status := Done, report := Some(r), level := Some(r.level), reliable := Some(r.reliable),
         source := if r.usedLlm then "llm" else "stub", completed := Some(now))
  }

  function FreshRow(sub: int, now: int): Row {
    Row(sub, Pending, None, None, None, "stub", None, [], now, None)
  }

  /** One atomic step of a process. An update of a row that is gone raises, and so ends the process. */
  function Move(s: State, p: int, c: Choice): State
    requires p in s.processes
  {
    match s.processes[p]
    case Looking(sub, poll) =>
      var active := ActiveIds(s.rows, sub);
      if active == {} then To(s, p, if poll then Ended else Checking(sub))
      else if c.found !in active then s
      else if s.rows[c.found].created > s.now - STALE_AFTER then To(s, p, if poll then Ended else Checking(sub))
      else To(s, p, Expiring(sub, poll, c.found))
    case Expiring(sub, poll, target) =>
      if target !in s.rows then To(s, p, Ended)
      else To(Put(s, target, FailedRow(s.rows[target], "interrupted", s.now)), p, if poll then Ended else Checking(sub))
    case Checking(sub) =>
      var active := ActiveIds(s.rows, sub);
      if active == {} then To(s, p, Inserting(sub))
      else if c.found !in active then s
      else To(s, p, Answered(c.found, false))
    case Inserting(sub) =>
      // the partial unique index, and the foreign key
      if ActiveIds(s.rows, sub) != {} || sub !in s.submissions then To(s, p, Retrying(sub))
      else if c.freshId in s.issued then s
      else To(Put(s, c.freshId, FreshRow(sub, s.now)), p, Answered(c.freshId, true)).(issued := s.issued + {c.freshId})
    case Retrying(sub) =>
      var active := ActiveIds(s.rows, sub);
      if active == {} then To(s, p, Ended)
      else if c.found !in active then s
      else To(s, p, Answered(c.found, false))
    case Answered(id, created) =>
      if created then To(s, p, Loading(id)).(handed := s.handed + [id]) else To(s, p, Ended)
    case Loading(id) =>
      To(s, p, if id in s.rows then LoadingSubmission(id, s.rows[id].submission) else Ended)
    case LoadingSubmission(id, sub) =>
      To(s, p, if sub in s.submissions then MarkingRunning(id) else MarkingOrphan(id))
    case MarkingOrphan(id) =>
      if id !in s.rows then To(s, p, Ended)
      else To(Put(s, id, FailedRow(s.rows[id], "submission deleted", s.now)), p, Ended)
    case MarkingRunning(id) =>
      // the partial unique index again: the row may have been written off and replaced
      if id !in s.rows || ActiveIds(s.rows, s.rows[id].submission) - {id} != {} then To(s, p, Ended)
      else To(Put(s, id, s.rows[id].(status := Running)), p, Analysing(id, []))
    case Analysing(id, recorded) =>
      (match c.next
       case Emit(event) =>
         if id !in s.rows then s
         else To(Put(s, id, s.rows[id].(progress := s.rows[id].progress + [event])), p,
                 Analysing(id, recorded + [event]))
       case Finish(report) => To(s, p, Reporting(id, recorded, report))
       case Break => To(s, p, MarkingFailed(id, recorded)))
    case Reporting(id, recorded, report) =>
      if id !in s.rows then To(s, p, Ended) else To(Put(s, id, DoneRow(s.rows[id], report, s.now)), p, Ended)
    case MarkingFailed(id, recorded) =>
      if id !in s.rows then To(s, p, Ended)
      else To(Put(s, id, FailedRow(s.rows[id], "failed", s.now)), p, Ended)
    case Ended => s
  }

  function Apply(s: State, a: Action): State {
    match a
    case Arrive(p, sub, poll) => if p in s.processes then s else To(s, p, Looking(sub, poll))
    case Advance(p, c) => if p in s.processes then Move(s, p, c) else s
    case Crash(p) => if p in s.processes then To(s, p, Ended) else s
    case Tick(minutes) => s.(now := s.now + minutes)
    case Upload(sub) => s.(submissions := s.submissions + {sub})
    // deleting a submission deletes its rows with it
    case Delete(sub) => s.(submissions := s.submissions - {sub},
                           rows := map id | id in s.rows && s.rows[id].submission != sub :: s.rows[id])
  }

  const START := State(map[], {}, 0, map[], {}, [])

  function After(s: State, actions: seq<Action>): State {
    if actions == [] then s else Apply(After(s, actions[..|actions| - 1]), actions[|actions| - 1])
  }

  // ----- what every reachable state satisfies

  /** The partial unique index. */
  ghost predicate OneActive(rows: map<int, Row>) {
    forall i, j | i in rows && j in rows && rows[i].status.Active() && rows[j].status.Active()
               && rows[i].submission == rows[j].submission :: i == j
  }

  /** A report is stored with its copies, and `done` means there is one. */
  ghost predicate RowOk(row: Row) {
    && (row.status.Done? ==> row.report.Some?)
    && (row.report.Some? ==>
      && !row.status.Active()
      && row.level == Some(row.report.value.level)
      && row.reliable == Some(row.report.value.reliable)
      && row.source == if row.report.value.usedLlm then "llm" else "stub")
  }

  /** The row a process was made responsible for, by creating it. */
  function Charge(process: Process): Option<int> {
    match process
    case Answered(id, created) => if created then Some(id) else None
    case Loading(id) => Some(id)
    case LoadingSubmission(id, _) => Some(id)
    case MarkingOrphan(id) => Some(id)
    case MarkingRunning(id) => Some(id)
    case Analysing(id, _) => Some(id)
    case Reporting(id, _, _) => Some(id)
    case MarkingFailed(id, _) => Some(id)
    case _ => None
  }

  /** Has the run written `running` yet? */
  predicate Begun(process: Process) {
    process.Analysing? || process.Reporting? || process.MarkingFailed?
  }

  function Recorded(process: Process): seq<string> {
    if Begun(process) then process.recorded else []
  }

  /** How a process in charge of a row and that row stand to each other. */
  ghost predicate ChargeOk(s: State, process: Process) {
    var charge := Charge(process);
    charge.Some? ==>
      && charge.value in s.issued
      && (charge.value in s.handed <==> !process.Answered?)
      && (charge.value in s.rows ==>
        && s.rows[charge.value].progress == Recorded(process)
        && s.rows[charge.value].report.None?
        && (s.rows[charge.value].status.Running? ==> Begun(process)))
  }

  ghost predicate ExpiryOk(s: State, process: Process) {
    process.Expiring? ==>
      && process.target in s.issued
      && (process.target in s.rows ==>
        && s.rows[process.target].created + STALE_AFTER <= s.now
        && s.rows[process.target].submission == process.sub)
  }

  ghost predicate ProcessesOk(s: State) {
    forall p | p in s.processes :: ChargeOk(s, s.processes[p]) && ExpiryOk(s, s.processes[p])
  }

  ghost predicate OneInCharge(processes: map<int, Process>) {
    forall p, q | p in processes && q in processes && Charge(processes[p]).Some?
               && Charge(processes[p]) == Charge(processes[q]) :: p == q
  }

  ghost predicate TableOk(s: State) {
    && OneActive(s.rows)
    && (forall id | id in s.rows :: RowOk(s.rows[id]) && s.rows[id].submission in s.submissions && id in s.issued)
  }

  ghost predicate HistoryOk(s: State) {
    NoRepeats(s.handed) && forall id | id in s.handed :: id in s.issued
  }

  ghost predicate Inv(s: State) {
    TableOk(s) && ProcessesOk(s) && OneInCharge(s.processes) && HistoryOk(s)
  }

  // ----- each kind of step keeps it

  /** Only `p` moves on, keeping or giving up the row it had. */
  lemma KeepMoving(s: State, p: int, process: Process)
    requires Inv(s) && p in s.processes
    requires ChargeOk(s, process) && ExpiryOk(s, process)
    requires Charge(process).Some? ==> Charge(process) == Charge(s.processes[p])
    ensures Inv(To(s, p, process))
  {
    var t := To(s, p, process);
    forall q | q in t.processes ensures ChargeOk(t, t.processes[q]) && ExpiryOk(t, t.processes[q]) {
      if q != p { assert ChargeOk(s, s.processes[q]) && ExpiryOk(s, s.processes[q]); }
    }
    forall q, r | q in t.processes && r in t.processes && Charge(t.processes[q]).Some?
               && Charge(t.processes[q]) == Charge(t.processes[r]) ensures q == r
    {
      assert q != p && r != p ==> q == r;
    }
  }

  /** A write to one row that keeps its place in the table, by the process in charge of it. */
  lemma KeepWriting(s: State, p: int, id: int, row: Row, process: Process)
    requires Inv(s) && p in s.processes && id in s.rows
    requires Charge(s.processes[p]) == Some(id)
    requires row.submission == s.rows[id].submission && RowOk(row) && row.created == s.rows[id].created
    requires row.status.Active() ==> ActiveIds(s.rows, row.submission) <= {id}
    requires Charge(process).Some? ==> Charge(process) == Some(id)
    requires ChargeOk(Put(s, id, row), process) && !process.Expiring?
    ensures Inv(To(Put(s, id, row), p, process))
  {
    var t := To(Put(s, id, row), p, process);
    OneActiveAfter(s.rows, id, row);
    forall q | q in t.processes ensures ChargeOk(t, t.processes[q]) && ExpiryOk(t, t.processes[q]) {
      if q != p {
        assert ChargeOk(s, s.processes[q]) && ExpiryOk(s, s.processes[q]);
        assert Charge(s.processes[q]) != Some(id);
      }
    }
    forall q, r | q in t.processes && r in t.processes && Charge(t.processes[q]).Some?
               && Charge(t.processes[q]) == Charge(t.processes[r]) ensures q == r
    {
      assert q != p && r != p ==> q == r;
    }
  }

  lemma OneActiveAfter(rows: map<int, Row>, id: int, row: Row)
    requires OneActive(rows)
    requires row.status.Active() ==> ActiveIds(rows, row.submission) <= {id}
    ensures OneActive(rows[id := row])
  {
    var after := rows[id := row];
    forall i, j | i in after && j in after && after[i].status.Active() && after[j].status.Active()
               && after[i].submission == after[j].submission ensures i == j
    {
      assert forall k | k in rows && rows[k].submission == row.submission && rows[k].status.Active() ::
          k in ActiveIds(rows, row.submission);
    }
  }

  lemma ActiveAlone(rows: map<int, Row>, id: int)
    requires OneActive(rows) && id in rows && rows[id].status.Active()
    ensures ActiveIds(rows, rows[id].submission) == {id}
  {
    forall j | j in ActiveIds(rows, rows[id].submission) ensures j == id {
      assert rows[j].status.Active();
    }
  }

  /** Writing a row off does not disturb whoever is in charge of it. */
  lemma KeepExpiring(s: State, p: int, message: string, process: Process)
    requires Inv(s) && p in s.processes && s.processes[p].Expiring? && s.processes[p].target in s.rows
    requires process.Ended? || process.Checking?
    ensures var target := s.processes[p].target;
            Inv(To(Put(s, target, FailedRow(s.rows[target], message, s.now)), p, process))
  {
    var target := s.processes[p].target;
    var row := FailedRow(s.rows[target], message, s.now);
    var t := To(Put(s, target, row), p, process);
    OneActiveAfter(s.rows, target, row);
    assert RowOk(s.rows[target]);
    forall q | q in t.processes ensures ChargeOk(t, t.processes[q]) && ExpiryOk(t, t.processes[q]) {
      if q != p { assert ChargeOk(s, s.processes[q]) && ExpiryOk(s, s.processes[q]); }
    }
    forall q, r | q in t.processes && r in t.processes && Charge(t.processes[q]).Some?
               && Charge(t.processes[q]) == Charge(t.processes[r]) ensures q == r
    {
      assert q != p && r != p ==> q == r;
    }
  }

  lemma KeepInserting(s: State, p: int, id: int)
    requires Inv(s) && p in s.processes && s.processes[p].Inserting? && id !in s.issued
    requires s.processes[p].sub in s.submissions && ActiveIds(s.rows, s.processes[p].sub) == {}
    ensures Inv(To(Put(s, id, FreshRow(s.processes[p].sub, s.now)), p, Answered(id, true)).(issued := s.issued + {id}))
  {
    var row := FreshRow(s.processes[p].sub, s.now);
    var t := To(Put(s, id, row), p, Answered(id, true)).(issued := s.issued + {id});
    OneActiveAfter(s.rows, id, row);
    forall q | q in t.processes ensures ChargeOk(t, t.processes[q]) && ExpiryOk(t, t.processes[q]) {
      if q != p { assert ChargeOk(s, s.processes[q]) && ExpiryOk(s, s.processes[q]); }
    }
    forall q, r | q in t.processes && r in t.processes && Charge(t.processes[q]).Some?
               && Charge(t.processes[q]) == Charge(t.processes[r]) ensures q == r
    {
      assert q != p ==> ChargeOk(s, s.processes[q]);
      assert r != p ==> ChargeOk(s, s.processes[r]);
      assert q != p && r != p ==> q == r;
    }
  }

  lemma KeepHanding(s: State, p: int, id: int)
    requires Inv(s) && p in s.processes && s.processes[p] == Answered(id, true)
    ensures Inv(To(s, p, Loading(id)).(handed := s.handed + [id]))
  {
    var t := To(s, p, Loading(id)).(handed := s.handed + [id]);
    assert ChargeOk(s, s.processes[p]);
    forall q | q in t.processes ensures ChargeOk(t, t.processes[q]) && ExpiryOk(t, t.processes[q]) {
      if q != p {
        assert ChargeOk(s, s.processes[q]) && ExpiryOk(s, s.processes[q]);
        assert Charge(s.processes[q]) != Some(id);
      }
    }
    forall q, r | q in t.processes && r in t.processes && Charge(t.processes[q]).Some?
               && Charge(t.processes[q]) == Charge(t.processes[r]) ensures q == r
    {
      assert q != p && r != p ==> q == r;
    }
  }

  lemma KeepWaiting(s: State, minutes: nat)
    requires Inv(s)
    ensures Inv(s.(now := s.now + minutes))
  {
    var t := s.(now := s.now + minutes);
    forall q | q in t.processes ensures ChargeOk(t, t.processes[q]) && ExpiryOk(t, t.processes[q]) {
      assert ChargeOk(s, s.processes[q]) && ExpiryOk(s, s.processes[q]);
    }
  }

  lemma KeepDeleting(s: State, sub: int)
    requires Inv(s)
    ensures Inv(Apply(s, Delete(sub)))
  {
    var t := Apply(s, Delete(sub));
    forall q | q in t.processes ensures ChargeOk(t, t.processes[q]) && ExpiryOk(t, t.processes[q]) {
      assert ChargeOk(s, s.processes[q]) && ExpiryOk(s, s.processes[q]);
    }
  }

  lemma KeepArriving(s: State, p: int, sub: int, poll: bool)
    requires Inv(s) && p !in s.processes
    ensures Inv(To(s, p, Looking(sub, poll)))
  {
    var t := To(s, p, Looking(sub, poll));
    forall q | q in t.processes ensures ChargeOk(t, t.processes[q]) && ExpiryOk(t, t.processes[q]) {
      if q != p { assert ChargeOk(s, s.processes[q]) && ExpiryOk(s, s.processes[q]); }
    }
  }

  /** Every step of every process keeps the invariant. */
  lemma MoveKeeps(s: State, p: int, c: Choice)
    requires Inv(s) && p in s.processes
    ensures Inv(Move(s, p, c))
  {
    hide Inv;
    MoveKeepsRequest(s, p, c);
    MoveKeepsRun(s, p, c);
    MoveKeepsAnalysis(s, p, c);
  }

  /** A request, up to its answer. */
  predicate Requesting(process: Process) {
    process.Looking? || process.Expiring? || process.Checking? || process.Inserting? || process.Retrying?
        || process.Ended?
  }

  lemma MoveKeepsRequest(s: State, p: int, c: Choice)
    requires Inv(s) && p in s.processes
    ensures Requesting(s.processes[p]) ==> Inv(Move(s, p, c))
  {
    var process := s.processes[p];
    assert ChargeOk(s, process) && ExpiryOk(s, process);
    hide ProcessesOk, OneInCharge, HistoryOk, OneActive;
    match process
    case Expiring(sub, poll, target) =>
      var then' := if poll then Ended else Checking(sub);
      KeepMoving(s, p, then');
      KeepMoving(s, p, Ended);
      if target in s.rows { KeepExpiring(s, p, "interrupted", then'); }
    case Inserting(sub) =>
      KeepMoving(s, p, Retrying(sub));
      if ActiveIds(s.rows, sub) == {} && sub in s.submissions && c.freshId !in s.issued {
        KeepInserting(s, p, c.freshId);
      }
    case Looking(sub, poll) =>
      KeepMoving(s, p, Ended);
      KeepMoving(s, p, Checking(sub));
      if c.found in ActiveIds(s.rows, sub) && s.rows[c.found].created <= s.now - STALE_AFTER {
        KeepMoving(s, p, Expiring(sub, poll, c.found));
      }
    case Checking(sub) =>
      KeepMoving(s, p, Inserting(sub));
      KeepMoving(s, p, Answered(c.found, false));
    case Retrying(sub) =>
      KeepMoving(s, p, Ended);
      KeepMoving(s, p, Answered(c.found, false));
    case _ =>
  }

  lemma MoveKeepsRun(s: State, p: int, c: Choice)
    requires Inv(s) && p in s.processes
    ensures !Requesting(s.processes[p]) && !Begun(s.processes[p]) ==> Inv(Move(s, p, c))
  {
    var process := s.processes[p];
    assert ChargeOk(s, process);
    KeepMoving(s, p, Ended);
    hide ProcessesOk, OneInCharge, HistoryOk, OneActive;
    match process
    case Answered(id, created) =>
      if created { KeepHanding(s, p, id); }
    case Loading(id) =>
      if id in s.rows { KeepMoving(s, p, LoadingSubmission(id, s.rows[id].submission)); }
    case LoadingSubmission(id, sub) =>
      KeepMoving(s, p, MarkingRunning(id));
      KeepMoving(s, p, MarkingOrphan(id));
    case MarkingOrphan(id) =>
      if id in s.rows { KeepWriting(s, p, id, FailedRow(s.rows[id], "submission deleted", s.now), Ended); }
    case MarkingRunning(id) =>
      if id in s.rows && ActiveIds(s.rows, s.rows[id].submission) - {id} == {} {
        KeepWriting(s, p, id, s.rows[id].(status := Running), Analysing(id, []));
      }
    case _ =>
  }

  lemma KeepRecording(s: State, p: int, id: int, event: string)
    requires Inv(s) && p in s.processes && s.processes[p].Analysing? && s.processes[p].id == id && id in s.rows
    ensures Inv(To(Put(s, id, s.rows[id].(progress := s.rows[id].progress + [event])), p,
                   Analysing(id, s.processes[p].recorded + [event])))
  {
    assert ChargeOk(s, s.processes[p]);
    var row := s.rows[id];
    if row.status.Active() { ActiveAlone(s.rows, id); }
    KeepWriting(s, p, id, row.(progress := row.progress + [event]), Analysing(id, s.processes[p].recorded + [event]));
  }

  lemma MoveKeepsAnalysis(s: State, p: int, c: Choice)
    requires Inv(s) && p in s.processes
    ensures Begun(s.processes[p]) ==> Inv(Move(s, p, c))
  {
    var process := s.processes[p];
    assert ChargeOk(s, process);
    KeepMoving(s, p, Ended);
    hide ProcessesOk, OneInCharge, HistoryOk, OneActive;
    match process
    case Analysing(id, recorded) =>
      match c.next {
        case Emit(event) =>
          if id in s.rows { KeepRecording(s, p, id, event); }
        case Finish(report) => KeepMoving(s, p, Reporting(id, recorded, report));
        case Break => KeepMoving(s, p, MarkingFailed(id, recorded));
      }
    case Reporting(id, recorded, report) =>
      if id in s.rows { KeepWriting(s, p, id, DoneRow(s.rows[id], report, s.now), Ended); }
    case MarkingFailed(id, recorded) =>
      if id in s.rows { KeepWriting(s, p, id, FailedRow(s.rows[id], "failed", s.now), Ended); }
    case _ =>
  }

  lemma StepKeeps(s: State, a: Action)
    requires Inv(s)
    ensures Inv(Apply(s, a))
  {
    match a
    case Arrive(p, sub, poll) => if p !in s.processes { KeepArriving(s, p, sub, poll); }
    case Advance(p, c) => if p in s.processes { MoveKeeps(s, p, c); }
    case Crash(p) => if p in s.processes { KeepMoving(s, p, Ended); }
    case Tick(minutes) => KeepWaiting(s, minutes);
    case Upload(sub) => KeepUploading(s, sub);
    case Delete(sub) => KeepDeleting(s, sub);
  }

  lemma KeepUploading(s: State, sub: int)
    requires Inv(s)
    ensures Inv(s.(submissions := s.submissions + {sub}))
  {
    var t := s.(submissions := s.submissions + {sub});
    forall q | q in t.processes ensures ChargeOk(t, t.processes[q]) && ExpiryOk(t, t.processes[q]) {
      assert ChargeOk(s, s.processes[q]) && ExpiryOk(s, s.processes[q]);
    }
  }

  // ----- safety over whole runs

  lemma {:induction false} AlwaysInv(actions: seq<Action>)
    ensures Inv(After(START, actions))
  {
    if actions != [] {
      AlwaysInv(actions[..|actions| - 1]);
      StepKeeps(After(START, actions[..|actions| - 1]), actions[|actions| - 1]);
    }
  }

  /** What one step records for a row: the event the run in charge of it emits. */
  function RecordedBy(s: State, a: Action, id: int): seq<string> {
    if a.Advance? && a.p in s.processes && s.processes[a.p].Analysing? && s.processes[a.p].id == id
       && a.choice.next.Emit? && id in s.rows
    then [a.choice.next.event] else []
  }

  /** Everything recorded for a row, in order. */
  function Recordings(actions: seq<Action>, id: int): seq<string> {
    if actions == [] then []
    else
      var n := |actions| - 1;
      Recordings(actions[..n], id) + RecordedBy(After(START, actions[..n]), actions[n], id)
  }

  lemma {:induction false} NotYetRecorded(actions: seq<Action>, id: int)
    requires id !in After(START, actions).issued
    ensures Recordings(actions, id) == []
  {
    if actions != [] {
      var n := |actions| - 1;
      var s := After(START, actions[..n]);
      AlwaysInv(actions[..n]);
      StepContinues(s, actions[n]);
      NotYetRecorded(actions[..n], id);
      assert id !in s.rows;
    }
  }

  lemma StepRecords(s: State, a: Action, id: int)
    requires Inv(s) && id in Apply(s, a).rows
    ensures id in s.rows ==> Apply(s, a).rows[id].progress == s.rows[id].progress + RecordedBy(s, a, id)
    ensures id !in s.rows ==> id !in s.issued && Apply(s, a).rows[id].progress == []
  {
    assert id in s.rows ==> id in s.issued;
    hide Inv, ActiveIds;
  }

  /** A row's progress is exactly what its run recorded, also after the run is over. */
  lemma {:induction false} ProgressIsRecorded(actions: seq<Action>, id: int)
    requires id in After(START, actions).rows
    ensures After(START, actions).rows[id].progress == Recordings(actions, id)
  {
    if actions != [] {
      var n := |actions| - 1;
      var s := After(START, actions[..n]);
      AlwaysInv(actions[..n]);
      StepRecords(s, actions[n], id);
      if id in s.rows {
        ProgressIsRecorded(actions[..n], id);
      } else {
        NotYetRecorded(actions[..n], id);
      }
    }
  }

  /** However requests, runs, deletions and crashes interleave: one analysis in progress per submission, each row
      handed to `run_analysis` at most once, a finished row has its report, and a row's progress is what its own run
      recorded. */
  lemma Safety(actions: seq<Action>)
    ensures var s := After(START, actions);
      && (forall sub :: |ActiveIds(s.rows, sub)| <= 1)
      && NoRepeats(s.handed)
      && (forall id | id in s.rows && s.rows[id].status.Done? :: s.rows[id].report.Some?)
      && (forall id | id in s.rows :: s.rows[id].progress == Recordings(actions, id))
      && (forall p | p in s.processes && Begun(s.processes[p]) :: s.processes[p].id in s.handed)
  {
    AlwaysInv(actions);
    var s := After(START, actions);
    hide After, Recordings;
    forall sub ensures |ActiveIds(s.rows, sub)| <= 1 { AtMostOne(s.rows, sub); }
    forall id | id in s.rows ensures s.rows[id].progress == Recordings(actions, id) { ProgressIsRecorded(actions, id); }
    forall p | p in s.processes && Begun(s.processes[p]) ensures s.processes[p].id in s.handed {
      assert ChargeOk(s, s.processes[p]);
    }
  }

  lemma AtMostOne(rows: map<int, Row>, sub: int)
    requires OneActive(rows)
    ensures |ActiveIds(rows, sub)| <= 1
  {
    var active := ActiveIds(rows, sub);
    if active != {} {
      var id := Sorting.SomeMember(active);
      ActiveAlone(rows, id);
      assert active == {id};
    }
  }

  /** What may have happened to the table between two moments: rows appear once and may vanish for good, progress is
      only appended to, and a stored report stays, its row never in progress again. */
  ghost predicate Continues(s: State, t: State) {
    && s.handed <= t.handed && s.issued <= t.issued && s.now <= t.now
    && (forall id | id in s.issued && id in t.rows :: id in s.rows && RowContinues(s.rows[id], t.rows[id]))
  }

  ghost predicate RowContinues(before: Row, after: Row) {
    && after.submission == before.submission && after.created == before.created
    && before.progress <= after.progress
    && (after.status.Pending? ==> before.status.Pending?)
    && (before.report.Some? ==> after.report == before.report && !after.status.Active())
  }

  lemma StepContinues(s: State, a: Action)
    requires Inv(s)
    ensures Continues(s, Apply(s, a))
  {
    if a.Advance? && a.p in s.processes {
      MoveContinues(s, a.p, a.choice);
    }
  }

  lemma MoveContinues(s: State, p: int, c: Choice)
    requires Inv(s) && p in s.processes
    ensures Continues(s, Move(s, p, c))
  {
    assert ChargeOk(s, s.processes[p]);
    assert forall id | id in s.rows :: RowOk(s.rows[id]) && id in s.issued;
    hide Inv, ActiveIds;
  }

  lemma ContinuesOn(s: State, t: State, u: State)
    requires Continues(s, t) && Continues(t, u)
    ensures Continues(s, u)
  {
    forall id | id in s.issued && id in u.rows ensures id in s.rows && RowContinues(s.rows[id], u.rows[id]) {
      assert id in t.rows && RowContinues(t.rows[id], u.rows[id]);
      assert RowContinues(s.rows[id], t.rows[id]);
    }
  }

  /** From any moment of any run to any later one. */
  lemma {:induction false} HistoryContinues(earlier: seq<Action>, later: seq<Action>)
    ensures Continues(After(START, earlier), After(START, earlier + later))
  {
    AlwaysInv(earlier);
    if later == [] {
      assert earlier + later == earlier;
    } else {
      var m := |later| - 1;
      HistoryContinues(earlier, later[..m]);
      AlwaysInv(earlier + later[..m]);
      assert (earlier + later)[..|earlier + later| - 1] == earlier + later[..m];
      StepContinues(After(START, earlier + later[..m]), later[m]);
      ContinuesOn(After(START, earlier), After(START, earlier + later[..m]), After(START, earlier + later));
    }
  }

  // ----- why a row changes

  /** A row turns `running` only by its own run, which had not begun, and with no other row of the submission in
      progress. */
  lemma OnlyOwnRunStarts(s: State, a: Action, id: int)
    requires Inv(s) && id in s.rows && id in Apply(s, a).rows
    requires !s.rows[id].status.Running? && Apply(s, a).rows[id].status.Running?
    ensures a.Advance? && a.p in s.processes && s.processes[a.p] == MarkingRunning(id)
    ensures ActiveIds(s.rows, s.rows[id].submission) <= {id}
    ensures s.rows[id].report.None? && s.rows[id].progress == []
  {
    if a.Advance? && a.p in s.processes { assert ChargeOk(s, s.processes[a.p]); }
  }

  /** The row was written off before its run began. */
  ghost predicate WrittenOff(s: State, id: int) {
    && id in s.issued
    && (id in s.rows ==> s.rows[id].status.Failed? && s.rows[id].report.None? && s.rows[id].progress == [])
    && (forall p | p in s.processes && Charge(s.processes[p]) == Some(id) :: !Begun(s.processes[p]))
  }

  /** Another analysis of its submission is in progress. */
  ghost predicate Superseded(s: State, id: int) {
    id in s.rows ==> ActiveIds(s.rows, s.rows[id].submission) - {id} != {}
  }

  lemma StaysWrittenOff(s: State, a: Action, id: int)
    requires Inv(s) && WrittenOff(s, id) && Superseded(s, id)
    ensures WrittenOff(Apply(s, a), id)
  {
    hide Inv, ActiveIds;
  }

  /** A run whose row was written off and replaced before it began never writes to it, as long as a newer row of the
      submission is in progress: the row stays failed, without report or progress. */
  lemma {:induction false} SupersededRunStops(s: State, later: seq<Action>, id: int)
    requires Inv(s) && WrittenOff(s, id)
    requires forall k | 0 <= k < |later| :: Superseded(After(s, later[..k]), id)
    ensures Inv(After(s, later)) && WrittenOff(After(s, later), id)
  {
    if later != [] {
      var n := |later| - 1;
      var front := later[..n];
      forall k | 0 <= k < n ensures Superseded(After(s, front[..k]), id) {
        assert front[..k] == later[..k];
      }
      SupersededRunStops(s, front, id);
      assert Superseded(After(s, later[..n]), id);
      hide Inv, WrittenOff, Superseded;
      StaysWrittenOff(After(s, front), later[n], id);
      StepKeeps(After(s, front), later[n]);
    }
  }

  /** Such a row comes from a request that finds it stale while its run has not begun. */
  lemma ExpiringWritesOff(s: State, p: int, c: Choice, id: int)
    requires Inv(s) && p in s.processes && s.processes[p].Expiring? && s.processes[p].target == id && id in s.rows
    requires s.rows[id].report.None? && s.rows[id].progress == []
    requires forall q | q in s.processes && Charge(s.processes[q]) == Some(id) :: !Begun(s.processes[q])
    ensures WrittenOff(Move(s, p, c), id)
  {
  }

  /** A row turns `failed` by its own run, or by a request that found it in progress and at least 15 minutes old. */
  lemma OnlyStaleRowsExpire(s: State, a: Action, id: int)
    requires Inv(s) && id in s.rows && id in Apply(s, a).rows
    requires !s.rows[id].status.Failed? && Apply(s, a).rows[id].status.Failed?
    ensures a.Advance? && a.p in s.processes
    ensures || Charge(s.processes[a.p]) == Some(id)
            || (s.processes[a.p].Expiring? && s.processes[a.p].target == id
                && s.rows[id].created + 15 <= s.now)
  {
    if a.Advance? && a.p in s.processes {
      assert ChargeOk(s, s.processes[a.p]) && ExpiryOk(s, s.processes[a.p]);
    }
  }

  /** Reports and progress are written only by the run in charge of the row. */
  lemma OnlyOwnRunReports(s: State, a: Action, id: int)
    requires Inv(s) && id in s.rows && id in Apply(s, a).rows
    requires Apply(s, a).rows[id].report != s.rows[id].report || Apply(s, a).rows[id].progress != s.rows[id].progress
    ensures a.Advance? && a.p in s.processes && Charge(s.processes[a.p]) == Some(id) && Begun(s.processes[a.p])
    ensures id in s.handed
  {
    if a.Advance? && a.p in s.processes { assert ChargeOk(s, s.processes[a.p]); }
  }

  /** An answer names a row of the submission asked about that is in progress, and `created` means this request made
      it. */
  lemma AnswerIsActive(s: State, p: int, c: Choice)
    requires Inv(s) && p in s.processes && !s.processes[p].Answered? && Move(s, p, c).processes[p].Answered?
    ensures var t, answer := Move(s, p, c), Move(s, p, c).processes[p];
      && (s.processes[p].Checking? || s.processes[p].Inserting? || s.processes[p].Retrying?)
      && answer.id in ActiveIds(t.rows, s.processes[p].sub)
      && (answer.created <==> answer.id !in s.issued)
      && (answer.created ==> t.rows[answer.id] == FreshRow(s.processes[p].sub, s.now))
  {
  }

  lemma NoneLeft(rows: map<int, Row>, sub: int, id: int, row: Row)
    requires ActiveIds(rows, sub) == {id} && !row.status.Active()
    ensures ActiveIds(rows[id := row], sub) == {}
  {
    forall j | j in rows && j != id ensures j !in ActiveIds(rows[id := row], sub) {
      assert j !in ActiveIds(rows, sub);
    }
  }

  /** A request that meets no other gets its analysis: a stale row is written off and replaced, a recent one is
      returned. */
  lemma RequestAlone(s: State, p: int, sub: int, c: Choice)
    requires Inv(s) && p !in s.processes && sub in s.submissions && c.freshId !in s.issued
    requires ActiveIds(s.rows, sub) == {} || c.found in ActiveIds(s.rows, sub)
    ensures var active, go := ActiveIds(s.rows, sub), Advance(p, c);
      var s2 := Apply(Apply(Apply(s, Arrive(p, sub, false)), go), go);
      var s3 := Apply(s2, go);
      var s4 := Apply(s3, go);
      var first := Row(sub, Pending, None, None, None, "stub", None, [], s.now, None);
      if active == {} then
        s3.processes[p] == Answered(c.freshId, true) && s3.rows == s.rows[c.freshId := first]
      else if s.rows[c.found].created > s.now - 15 then
        s2.processes[p] == Answered(c.found, false) && s2.rows == s.rows
      else
        var was := s.rows[c.found];
        var stale := Row(sub, Failed, None, was.level, was.reliable, was.source, Some("interrupted"), was.progress,
                         was.created, Some(s.now));
        s4.processes[p] == Answered(c.freshId, true) && s4.rows == s.rows[c.found := stale][c.freshId := first]
  {
    var active, go := ActiveIds(s.rows, sub), Advance(p, c);
    var s0 := Apply(s, Arrive(p, sub, false));
    var s1 := Apply(s0, go);
    var s2 := Apply(s1, go);
    if active != {} && s.rows[c.found].created <= s.now - STALE_AFTER {
      ActiveAlone(s.rows, c.found);
      assert s1.processes[p] == Expiring(sub, false, c.found);
      assert s2.rows == s.rows[c.found := FailedRow(s.rows[c.found], "interrupted", s.now)];
      NoneLeft(s.rows, sub, c.found, s2.rows[c.found]);
    }
  }

  // ----- a run alone

  lemma {:induction false} AfterAppend(s: State, xs: seq<Action>, ys: seq<Action>)
    ensures After(s, xs + ys) == After(After(s, xs), ys)
  {
    if ys == [] {
      assert xs + ys == xs;
    } else {
      var n := |ys| - 1;
      AfterAppend(s, xs, ys[..n]);
      assert (xs + ys)[..|xs + ys| - 1] == xs + ys[..n] && (xs + ys)[|xs + ys| - 1] == ys[n];
    }
  }

  lemma AfterAll(s: State, w: seq<Action>, x: seq<Action>, y: seq<Action>, z: seq<Action>)
    ensures After(s, w + x + y + z) == After(After(After(After(s, w), x), y), z)
  {
    hide After;
    AfterAppend(s, w, x);
    AfterAppend(s, w + x, y);
    AfterAppend(s, w + x + y, z);
  }

  function Proceed(p: int, next: Analysis): Action {
    Advance(p, Choice(0, 0, next))
  }

  function Emits(p: int, events: seq<string>): seq<Action> {
    if events == [] then [] else Emits(p, events[..|events| - 1]) + [Proceed(p, Emit(events[|events| - 1]))]
  }

  function FourOf(a: Action): seq<Action> {
    ([a] + [a]) + ([a] + [a])
  }

  /** A run from hand-over to the end: load the row and its submission, mark it, emit, finish, write the report. */
  function RunOf(p: int, events: seq<string>, report: Report): seq<Action> {
    FourOf(Proceed(p, Break)) + Emits(p, events) + [Proceed(p, Finish(report))] + [Proceed(p, Break)]
  }

  lemma AfterOne(s: State, a: Action)
    ensures After(s, [a]) == Apply(s, a)
  {
    assert [a][..0] == [];
    assert After(s, []) == s;
  }

  /** The four steps before the analysis: hand-over, load the row, load its submission, mark it running. */
  lemma RunStarts(s: State, p: int, id: int)
    requires Inv(s) && p in s.processes && s.processes[p] == Answered(id, true)
    requires id in s.rows && ActiveIds(s.rows, s.rows[id].submission) <= {id}
    ensures After(s, FourOf(Proceed(p, Break))) == Started(s, p, id)
  {
    var go := Proceed(p, Break);
    assert s.rows[id].submission in s.submissions;
    RunLoads(s, p, id, go);
    RunMarks(s, p, id, go);
    hide Inv, After, FourOf, Apply;
    FourTimes(s, go);
  }

  lemma RunLoads(s: State, p: int, id: int, go: Action)
    requires p in s.processes && s.processes[p] == Answered(id, true) && go.Advance? && go.p == p
    requires id in s.rows && s.rows[id].submission in s.submissions
    ensures Apply(Apply(Apply(s, go), go), go) == To(s.(handed := s.handed + [id]), p, MarkingRunning(id))
  {
    hide ActiveIds;
    var h, sub := s.(handed := s.handed + [id]), s.rows[id].submission;
    assert Apply(s, go) == To(h, p, Loading(id));
    ThenMove(h, p, Loading(id), go, LoadingSubmission(id, sub));
    ThenMove(h, p, LoadingSubmission(id, sub), go, MarkingRunning(id));
  }

  lemma RunMarks(s: State, p: int, id: int, go: Action)
    requires go.Advance? && go.p == p && id in s.rows && ActiveIds(s.rows, s.rows[id].submission) <= {id}
    ensures Apply(To(s.(handed := s.handed + [id]), p, MarkingRunning(id)), go) == Started(s, p, id)
  {
    assert ActiveIds(s.rows, s.rows[id].submission) - {id} == {};
    hide Inv, ActiveIds;
    var m := To(s.(handed := s.handed + [id]), p, MarkingRunning(id));
    assert m.processes[p := Analysing(id, [])] == s.processes[p := Analysing(id, [])];
  }

  function Started(s: State, p: int, id: int): State
    requires id in s.rows
  {
    To(Put(s, id, s.rows[id].(status := Running)), p, Analysing(id, [])).(handed := s.handed + [id])
  }

  lemma ThenMove(s: State, p: int, from: Process, a: Action, to': Process)
    requires Apply(To(s, p, from), a) == To(To(s, p, from), p, to')
    ensures Apply(To(s, p, from), a) == To(s, p, to')
  {
    assert s.processes[p := from][p := to'] == s.processes[p := to'];
  }

  lemma Twice(s: State, a: Action)
    ensures After(s, [a] + [a]) == Apply(Apply(s, a), a)
  {
    AfterAppend(s, [a], [a]);
    AfterOne(s, a);
    AfterOne(Apply(s, a), a);
  }

  lemma FourTimes(s: State, a: Action)
    ensures After(s, FourOf(a)) == Apply(Apply(Apply(Apply(s, a), a), a), a)
  {
    hide Apply, After;
    AfterAppend(s, [a] + [a], [a] + [a]);
    Twice(s, a);
    Twice(Apply(Apply(s, a), a), a);
  }

  lemma {:induction false} RunRecords(s: State, p: int, id: int, events: seq<string>)
    requires p in s.processes && s.processes[p] == Analysing(id, []) && id in s.rows && s.rows[id].progress == []
    ensures After(s, Emits(p, events)) == To(Put(s, id, s.rows[id].(progress := events)), p, Analysing(id, events))
  {
    if events == [] {
      assert s.rows[id := s.rows[id].(progress := [])] == s.rows;
      assert s.processes[p := Analysing(id, [])] == s.processes;
    } else {
      var n := |events| - 1;
      RunRecords(s, p, id, events[..n]);
      var t, a := After(s, Emits(p, events[..n])), Proceed(p, Emit(events[n]));
      assert events == events[..n] + [events[n]];
      AfterAppend(s, Emits(p, events[..n]), [a]);
      AfterOne(t, a);
      assert Emits(p, events) == Emits(p, events[..n]) + [a];
      hide After, Emits;
      OneRecorded(s, p, id, events[..n], events[n]);
    }
  }

  lemma OneRecorded(s: State, p: int, id: int, events: seq<string>, event: string)
    requires id in s.rows
    ensures Apply(To(Put(s, id, s.rows[id].(progress := events)), p, Analysing(id, events)), Proceed(p, Emit(event)))
         == To(Put(s, id, s.rows[id].(progress := events + [event])), p, Analysing(id, events + [event]))
  {
    var row := s.rows[id];
    assert s.rows[id := row.(progress := events)][id := row.(progress := events + [event])]
        == s.rows[id := row.(progress := events + [event])];
    assert s.processes[p := Analysing(id, events)][p := Analysing(id, events + [event])]
        == s.processes[p := Analysing(id, events + [event])];
  }

  lemma Overwritten(rows: map<int, Row>, id: int, x: Row, y: Row, z: Row)
    ensures rows[id := x][id := y][id := z] == rows[id := z]
  {
  }

  lemma RunEnds(s: State, p: int, id: int, events: seq<string>, report: Report)
    requires p in s.processes && s.processes[p] == Analysing(id, events) && id in s.rows
    ensures var t := Apply(Apply(s, Proceed(p, Finish(report))), Proceed(p, Break));
      && p in t.processes && t.processes[p].Ended? && t.handed == s.handed
      && t.rows == s.rows[id := DoneRow(s.rows[id], report, s.now)]
  {
    assert Apply(s, Proceed(p, Finish(report))).processes[p] == Reporting(id, events, report);
  }

  /** A run nothing interferes with ends `done`, with its report and the copies of it stored and its events as the row's
      progress; even one whose row had been written off as stale before, which then keeps that error. */
  lemma RunAlone(s: State, p: int, id: int, events: seq<string>, report: Report)
    requires Inv(s) && p in s.processes && s.processes[p] == Answered(id, true)
    requires id in s.rows && ActiveIds(s.rows, s.rows[id].submission) <= {id}
    ensures var t := After(s, RunOf(p, events, report));
      && p in t.processes && t.processes[p].Ended? && t.handed == s.handed + [id]
      && t.rows == s.rows[id := Row(s.rows[id].submission, Done, Some(report), Some(report.level),
                                    Some(report.reliable), if report.usedLlm then "llm" else "stub",
                                    s.rows[id].error, events, s.rows[id].created, Some(s.now))]
  {
    var start, emits := FourOf(Proceed(p, Break)), Emits(p, events);
    var finish, write := Proceed(p, Finish(report)), Proceed(p, Break);
    assert ChargeOk(s, s.processes[p]);
    RunStarts(s, p, id);
    hide After, FourOf, Emits, Inv, Apply;
    var s1 := Started(s, p, id);
    RunRecords(s1, p, id, events);
    var s2 := After(s1, emits);
    AfterAll(s, start, emits, [finish], [write]);
    AfterOne(s2, finish);
    AfterOne(Apply(s2, finish), write);
    RunEnds(s2, p, id, events, report);
    var started := s.rows[id].(status := Running);
    Overwritten(s.rows, id, started, started.(progress := events),
                DoneRow(started.(progress := events), report, s.now));
  }

  /** A run whose analysis breaks after these events: the same start, then the failure is noticed and written. */
  function BrokenRunOf(p: int, events: seq<string>): seq<Action> {
    FourOf(Proceed(p, Break)) + Emits(p, events) + [Proceed(p, Break)] + [Proceed(p, Break)]
  }

  lemma RunBreaks(s: State, p: int, id: int, events: seq<string>)
    requires p in s.processes && s.processes[p] == Analysing(id, events) && id in s.rows
    ensures var t := Apply(Apply(s, Proceed(p, Break)), Proceed(p, Break));
      && p in t.processes && t.processes[p].Ended? && t.handed == s.handed && t.now == s.now
      && t.submissions == s.submissions && t.issued == s.issued
      && t.rows == s.rows[id := s.rows[id].(status := Failed, error := Some("failed"), completed := Some(s.now))]
  {
    assert Apply(s, Proceed(p, Break)).processes[p] == MarkingFailed(id, events);
  }

  /** A run nothing interferes with whose analysis breaks ends `failed`: with an error and a time, without a report, its
      events kept as progress, every other row as it was, and nothing of the submission in progress any more. */
  lemma BrokenRunAlone(s: State, p: int, id: int, events: seq<string>)
    requires Inv(s) && p in s.processes && s.processes[p] == Answered(id, true)
    requires id in s.rows && ActiveIds(s.rows, s.rows[id].submission) <= {id}
    ensures var t := After(s, BrokenRunOf(p, events));
      && p in t.processes && t.processes[p].Ended? && t.handed == s.handed + [id] && t.now == s.now
      && t.submissions == s.submissions && t.issued == s.issued
      && t.rows == s.rows[id := Row(s.rows[id].submission, Failed, None, s.rows[id].level, s.rows[id].reliable,
                                    s.rows[id].source, Some("failed"), events, s.rows[id].created, Some(s.now))]
      && ActiveIds(t.rows, s.rows[id].submission) == {}
  {
    var start, emits, go := FourOf(Proceed(p, Break)), Emits(p, events), Proceed(p, Break);
    assert ChargeOk(s, s.processes[p]);
    RunStarts(s, p, id);
    var row := s.rows[id].(status := Failed, error := Some("failed"), progress := events, completed := Some(s.now));
    assert ActiveIds(s.rows[id := row], row.submission) == {} by {
      forall j | j in s.rows && j != id ensures j !in ActiveIds(s.rows[id := row], row.submission) {
        assert j !in ActiveIds(s.rows, row.submission);
      }
    }
    hide After, FourOf, Emits, Inv, Apply, ActiveIds;
    var s1 := Started(s, p, id);
    RunRecords(s1, p, id, events);
    var s2 := After(s1, emits);
    AfterAll(s, start, emits, [go], [go]);
    AfterOne(s2, go);
    AfterOne(Apply(s2, go), go);
    RunBreaks(s2, p, id, events);
    var started := s.rows[id].(status := Running);
    Overwritten(s.rows, id, started, started.(progress := events), row);
  }

  lemma {:induction false} InvAfter(s: State, actions: seq<Action>)
    requires Inv(s)
    ensures Inv(After(s, actions))
  {
    hide Inv, Apply;
    if actions != [] {
      InvAfter(s, actions[..|actions| - 1]);
      StepKeeps(After(s, actions[..|actions| - 1]), actions[|actions| - 1]);
    }
  }

  /** After a broken run the next request starts over: it makes a fresh row, and the failed one stays beside it. */
  lemma BrokenRunIsReplaced(s: State, p: int, id: int, events: seq<string>, q: int, c: Choice)
    requires Inv(s) && p in s.processes && s.processes[p] == Answered(id, true)
    requires id in s.rows && ActiveIds(s.rows, s.rows[id].submission) <= {id}
    requires q !in After(s, BrokenRunOf(p, events)).processes && c.freshId !in s.issued
    ensures var t, sub := After(s, BrokenRunOf(p, events)), s.rows[id].submission;
      var u := Apply(Apply(Apply(Apply(t, Arrive(q, sub, false)), Advance(q, c)), Advance(q, c)), Advance(q, c));
      && u.processes[q] == Answered(c.freshId, true)
      && u.rows == t.rows[c.freshId := Row(sub, Pending, None, None, None, "stub", None, [], s.now, None)]
      && id in u.rows && u.rows[id].status.Failed? && c.freshId != id
  {
    assert s.rows[id].submission in s.submissions && id in s.issued;
    BrokenRunAlone(s, p, id, events);
    InvAfter(s, BrokenRunOf(p, events));
    hide Inv, After, Apply, BrokenRunOf, ActiveIds;
    RequestAlone(After(s, BrokenRunOf(p, events)), q, s.rows[id].submission, c);
  }

  // ----- a run whose submission was deleted

  /** A run that finds its submission gone would mark its row as failed. */
  lemma OrphanIsFailed(s: State, p: int, c: Choice)
    requires p in s.processes && s.processes[p].MarkingOrphan? && s.processes[p].id in s.rows
    ensures var id, t := s.processes[p].id, Move(s, p, c);
      && t.processes == s.processes[p := Ended] && t.rows.Keys == s.rows.Keys
      && t.rows[id].status.Failed? && t.rows[id].error.Some? && t.rows[id].completed == Some(s.now)
      && t.rows[id].report == s.rows[id].report && t.rows[id].progress == s.rows[id].progress
      && forall j | j in s.rows && j != id :: t.rows[j] == s.rows[j]
  {
  }

  /** A run that loaded its row knows its submission, and one that found the submission gone has lost the row. */
  ghost predicate OrphanOk(rows: map<int, Row>, process: Process) {
    && (process.LoadingSubmission? && process.id in rows ==> rows[process.id].submission == process.sub)
    && (process.MarkingOrphan? ==> process.id !in rows)
  }

  ghost predicate OrphansOk(s: State) {
    forall p | p in s.processes :: OrphanOk(s.rows, s.processes[p])
  }

  lemma StepKeepsOrphans(s: State, a: Action)
    requires Inv(s) && OrphansOk(s)
    ensures OrphansOk(Apply(s, a))
  {
    var t := Apply(s, a);
    StepContinues(s, a);
    assert forall id | id in s.rows :: s.rows[id].submission in s.submissions;
    forall p | p in t.processes ensures OrphanOk(t.rows, t.processes[p]) {
      if p in s.processes { assert ChargeOk(s, s.processes[p]) && OrphanOk(s.rows, s.processes[p]); }
      hide Inv, Continues, ActiveIds, OrphansOk, Move, ChargeOk, OrphanOk;
      if a.Advance? && a.p == p && p in s.processes {
        MoveKeepsOrphan(s, p, a.choice);
      } else {
        if a.Advance? && a.p in s.processes { MoveLeavesOthers(s, a.p, a.choice, p); }
        if p in s.processes && t.processes[p] == s.processes[p] {
          OrphanLater(s, t, s.processes[p]);
        } else {
          NoOrphan(t.rows, t.processes[p]);
        }
      }
    }
  }

  lemma MoveKeepsOrphan(s: State, p: int, c: Choice)
    requires p in s.processes && OrphanOk(s.rows, s.processes[p]) && ChargeOk(s, s.processes[p])
    requires forall id | id in s.rows :: s.rows[id].submission in s.submissions
    ensures p in Move(s, p, c).processes && OrphanOk(Move(s, p, c).rows, Move(s, p, c).processes[p])
  {
    hide ActiveIds;
  }

  lemma MoveLeavesOthers(s: State, p: int, c: Choice, q: int)
    requires p in s.processes && q != p
    ensures q in Move(s, p, c).processes <==> q in s.processes
    ensures q in s.processes ==> Move(s, p, c).processes[q] == s.processes[q]
  {
    hide ActiveIds;
  }

  lemma NoOrphan(rows: map<int, Row>, process: Process)
    requires process.Looking? || process.Ended?
    ensures OrphanOk(rows, process)
  {
  }

  lemma OrphanLater(s: State, t: State, process: Process)
    requires ChargeOk(s, process) && OrphanOk(s.rows, process) && Continues(s, t)
    ensures OrphanOk(t.rows, process)
  {
  }

  lemma {:induction false} OrphansAlways(actions: seq<Action>)
    ensures OrphansOk(After(START, actions))
  {
    if actions != [] {
      var n := |actions| - 1;
      OrphansAlways(actions[..n]);
      AlwaysInv(actions[..n]);
      hide Inv, OrphansOk, Apply;
      StepKeepsOrphans(After(START, actions[..n]), actions[n]);
    }
  }

  /** But the row always goes with its submission: in no run of the system does such a process still have a row to
      write to, so it ends without a trace. */
  lemma OrphanLeavesNoTrace(actions: seq<Action>, p: int, c: Choice)
    requires var s := After(START, actions); p in s.processes && s.processes[p].MarkingOrphan?
    ensures var s := After(START, actions);
      s.processes[p].id !in s.rows && Move(s, p, c) == s.(processes := s.processes[p := Ended])
  {
    OrphansAlways(actions);
    hide After;
  }

  // ----- requests side by side, and polling

  /** Of two requests about to insert, the first to commit makes the row and the other is answered with it. */
  lemma RacingRequests(s: State, p: int, q: int, sub: int, c: Choice)
    requires Inv(s) && p in s.processes && q in s.processes && p != q && ActiveIds(s.rows, sub) == {}
    requires s.processes[p] == Inserting(sub) && s.processes[q] == Inserting(sub)
    requires sub in s.submissions && c.freshId !in s.issued && c.found == c.freshId
    ensures var t := Apply(Apply(Apply(s, Advance(p, c)), Advance(q, c)), Advance(q, c));
      && t.processes[p] == Answered(c.freshId, true) && t.processes[q] == Answered(c.freshId, false)
      && t.rows == s.rows[c.freshId := Row(sub, Pending, None, None, None, "stub", None, [], s.now, None)]
      && t.issued == s.issued + {c.freshId}
  {
    var first := Apply(s, Advance(p, c));
    assert c.freshId in ActiveIds(first.rows, sub);
    var second := Apply(first, Advance(q, c));
    assert second.processes[q] == Retrying(sub) && second.rows == first.rows;
  }

  /** An insert refused because the submission is gone ends the request without a row. */
  lemma RefusedWithoutSubmission(s: State, p: int, sub: int, c: Choice)
    requires Inv(s) && p in s.processes && s.processes[p] == Inserting(sub) && sub !in s.submissions
    ensures var t := Apply(Apply(s, Advance(p, c)), Advance(p, c));
      t.processes[p].Ended? && t.rows == s.rows && t.issued == s.issued
  {
    assert forall id | id in s.rows :: s.rows[id].submission in s.submissions;
    hide Inv;
    assert ActiveIds(s.rows, sub) == {};
    assert Apply(s, Advance(p, c)).processes[p] == Retrying(sub);
  }

  /** A poll that meets no other process writes off a row in progress that is at least 15 minutes old, and otherwise
      changes nothing; it never makes a row. */
  lemma PollAlone(s: State, p: int, sub: int, c: Choice)
    requires Inv(s) && p !in s.processes
    requires ActiveIds(s.rows, sub) == {} || c.found in ActiveIds(s.rows, sub)
    ensures var t := Apply(Apply(Apply(s, Arrive(p, sub, true)), Advance(p, c)), Advance(p, c));
      && t.processes[p].Ended? && t.issued == s.issued
      && t.rows == if ActiveIds(s.rows, sub) != {} && s.rows[c.found].created <= s.now - 15
                   then s.rows[c.found := s.rows[c.found].(status := Failed, error := Some("interrupted"),
                                                           completed := Some(s.now))]
                   else s.rows
  {
    hide Inv;
    var s1 := Apply(s, Arrive(p, sub, true));
    var s2 := Apply(s1, Advance(p, c));
    if ActiveIds(s.rows, sub) != {} && s.rows[c.found].created <= s.now - 15 {
      assert s2.processes[p] == Expiring(sub, true, c.found) && s2.rows == s.rows;
    } else {
      assert s2.processes[p].Ended? && s2.rows == s.rows;
    }
  }

  /** Expiry reads in one step and writes in another. A run that finishes in between is shown as failed, though its
      report stays stored; one that finishes just after is done all the same, and keeps the error. */
  lemma FinishMeetsExpiry(s: State, p: int, q: int, id: int, sub: int, poll: bool, events: seq<string>,
                          report: Report, c: Choice)
    requires Inv(s) && p in s.processes && q in s.processes && p != q && id in s.rows
    requires s.processes[p] == Expiring(sub, poll, id) && s.processes[q] == Reporting(id, events, report)
    ensures var t := Apply(Apply(s, Advance(q, c)), Advance(p, c));
      && t.rows.Keys == s.rows.Keys && (forall j | j in s.rows && j != id :: t.rows[j] == s.rows[j])
      && t.rows[id].status.Failed? && t.rows[id].error == Some("interrupted")
      && t.rows[id].report == Some(report) && t.rows[id].progress == events
    ensures var t := Apply(Apply(s, Advance(p, c)), Advance(q, c));
      && t.rows.Keys == s.rows.Keys && (forall j | j in s.rows && j != id :: t.rows[j] == s.rows[j])
      && t.rows[id].status.Done? && t.rows[id].error == Some("interrupted")
      && t.rows[id].report == Some(report) && t.rows[id].progress == events
  {
    assert ChargeOk(s, s.processes[q]);
  }
}
