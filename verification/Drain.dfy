/**
 * Draining the delivery outbox into the journal
 * (packages/tasq-cli/src/runtime.ts:361-479). The outbox is abstract: it may
 * lease any event next, and the process may stop between append and
 * acknowledgement.
 */
module Drain {
  import opened Common
  import opened JournalModel
  import opened JournalRuns

  /** getEvent: the sequence stored for a tenant and an event id. */
  type Database = map<(string, string), int>

  datatype Coverage = Coverage(valid: bool, cursor: int)

  /** This checkpoint is a coverage boundary for this tenant, database and these archives. */
  ghost predicate IsBoundary(h: Hashing, files: Files, db: Database, tenantId: string, c: Checkpoint) {
    && c.tenantId == tenantId
    && (if c.databaseCursor == 0 then c.databaseEventId.None?
        else
          && c.databaseEventId.Some?
          && c.databaseEventId.value != ""
          && (tenantId, c.databaseEventId.value) in db
          && db[(tenantId, c.databaseEventId.value)] == c.databaseCursor)
    && Intact(h, files, c.previousSegment)
  }

  /** The active checkpoint is a coverage boundary. */
  ghost predicate Covers(h: Hashing, files: Files, db: Database, tenantId: string) {
    var leading := LeadingCheckpoint(ReadContent(files, JournalPath));
    leading.Some? && IsBoundary(h, files, db, tenantId, leading.value)
  }

  /**
   * No event id occurs twice, sequences strictly increase, and nothing is at or
   * below the leading checkpoint's cursor.
   */
  predicate OrderedSegment(content: Content) {
    && (forall i, j :: 0 <= i < j < |content| && content[i].EventLine? && content[j].EventLine? ==>
          content[i].id != content[j].id
          && (content[i].sequence.Some? && content[j].sequence.Some? ==>
                content[i].sequence.value < content[j].sequence.value))
    && (LeadingCheckpoint(content).Some? ==>
          forall i :: 0 <= i < |content| && content[i].EventLine? && content[i].sequence.Some? ==>
            CursorOf(content) < content[i].sequence.value)
  }

  lemma AppendKeepsSegmentOrdered(content: Content, e: Event)
    requires OrderedSegment(content) && OutcomeOf(content, e).Appended?
    ensures OrderedSegment(content + [LineOf(e)])
  {
    AppendedLine(content, e);
  }

  /** A crash after the append is recognised when the same event is leased again. */
  lemma RedeliveryIsRecognised(content: Content, e: Event)
    requires OutcomeOf(content, e).Appended? && e.id != ""
    ensures OutcomeOf(content + [LineOf(e)], e) == AlreadyPresent
  {
    AppendedLine(content, e);
    ObstacleAtEnd(content, e);
  }

  lemma {:induction false} ObstacleAtEnd(content: Content, e: Event)
    requires FirstObstacle(content, e).None?
    ensures FirstObstacle(content + [LineOf(e)], e) == Some(LineOf(e))
  {
    if content == [] {
      assert content + [LineOf(e)] == [LineOf(e)];
    } else {
      ObstacleAtEnd(content[1..], e);
      assert (content + [LineOf(e)])[1..] == content[1..] + [LineOf(e)];
    }
  }

  /** The active segment is never in its own chain, so appends cannot break coverage. */
  lemma ActiveNotInOwnChain(h: Hashing, files: Files, ps: seq<Path>)
    requires Chain(h, files, PreviousOf(ReadContent(files, JournalPath)), ps)
    ensures JournalPath !in ps
  {
    if i :| 0 <= i < |ps| && ps[i] == JournalPath {
      var previous := PreviousOf(ReadContent(files, JournalPath));
      ChainSuffix(h, files, previous, ps, i);
      ChainUnique(h, files, previous, ps, ps[i + 1..]);
    }
  }

  lemma AppendKeepsCoverage(h: Hashing, files: Files, db: Database, tenantId: string, e: Event)
    requires Covers(h, files, db, tenantId)
    ensures Covers(h, AfterAppend(files, e), db, tenantId)
    ensures LeadingCheckpoint(ReadContent(AfterAppend(files, e), JournalPath))
         == LeadingCheckpoint(ReadContent(files, JournalPath))
  {
    var content := ReadContent(files, JournalPath);
    AppendedLine(content, e);
    var ps :| Chain(h, files, PreviousOf(content), ps);
    ActiveNotInOwnChain(h, files, ps);
    ChainFrame(h, files, AfterAppend(files, e), PreviousOf(content), ps);
  }

  /** A sound rotation at a row the database holds is a coverage boundary for its tenant at once. */
  lemma RotationCovers(h: Hashing, s: State, o: Options, ps: seq<Path>, db: Database)
    requires Conserves(h, s, ps) && !Reuses(Active(s), o) && ValidOptions(o)
    requires Active(s) == [] || ArchiveTarget(h, Active(s), o) !in ps
    requires o.databaseCursor == 0 ==> o.databaseEventId.None?
    requires o.databaseCursor != 0 ==>
      && o.databaseEventId.Some? && o.databaseEventId.value != ""
      && (o.tenantId, o.databaseEventId.value) in db
      && db[(o.tenantId, o.databaseEventId.value)] == o.databaseCursor
    ensures Covers(h, Apply(h, s, CheckpointStep(o)).files, db, o.tenantId)
  {
    var qs := RotationKeeps(h, s, o, ps);
    RotationInstalls(h, s, o);
  }

  method VerifyCheckpointCoverage(j: Journal, db: Database, tenantId: string) returns (c: Coverage)
    ensures c.valid <==> Covers(j.hash, j.files, db, tenantId)
    ensures c.cursor == CursorOf(ReadContent(j.files, JournalPath))
  {
    var leading := LeadingCheckpoint(ReadContent(j.files, JournalPath));
    if leading.None? { return Coverage(false, 0); }
    var checkpoint := leading.value;
    if checkpoint.tenantId != tenantId { return Coverage(false, checkpoint.databaseCursor); }
    if checkpoint.databaseCursor == 0 {
      if checkpoint.databaseEventId.Some? { return Coverage(false, 0); }
    } else {
      if checkpoint.databaseEventId.None? || checkpoint.databaseEventId.value == "" {
        return Coverage(false, checkpoint.databaseCursor);
      }
      var key := (tenantId, checkpoint.databaseEventId.value);
      if key !in db || db[key] != checkpoint.databaseCursor {
        return Coverage(false, checkpoint.databaseCursor);
      }
    }
    var archive := j.VerifyArchiveChain(checkpoint);
    return Coverage(archive.ok, checkpoint.databaseCursor);
  }

  /**
   * What the outbox hands out: an event, whether the process stops right after
   * the append, whether the acknowledgement fails, and whether a failure
   * quarantines the delivery.
   */
  datatype Lease = Lease(event: Event, crashes: bool, ackFails: bool, quarantines: bool)

  datatype Report = Report(
    delivered: nat, alreadyPresent: nat, coveredByCheckpoint: nat, failed: nat, quarantined: nat)

  /** An acknowledged event is in the segment, or a verified checkpoint covers it. */
  ghost predicate Settled(h: Hashing, files: Files, db: Database, tenantId: string, e: Event) {
    var content := ReadContent(files, JournalPath);
    LineOf(e) in content || (Covers(h, files, db, tenantId) && e.sequence <= CursorOf(content))
  }

  /** How many of these events the segment's leading checkpoint covers. */
  function CoveredCount(content: Content, events: seq<Event>): nat {
    if events == [] then 0
    else
      var e := events[|events| - 1];
      CoveredCount(content, events[..|events| - 1])
      + (if LeadingCheckpoint(content).Some? && e.sequence <= CursorOf(content) then 1 else 0)
  }

  lemma {:induction false} PresentMeansIn(content: Content, e: Event)
    requires OutcomeOf(content, e) == AlreadyPresent
    ensures LineOf(e) in content && e in EventsOf(content)
  {
    InSegment(content, FirstObstacle(content, e).value);
  }

  lemma {:induction false} InSegment(content: Content, line: Line)
    requires line in content && line.EventLine? && line.sequence.Some?
    ensures Event(line.id, line.sequence.value) in EventsOf(content)
  {
    if line != content[0] {
      assert line in content[1..];
      InSegment(content[1..], line);
    }
  }

  lemma AppendKeepsSettled(h: Hashing, files: Files, db: Database, tenantId: string, e: Event, x: Event)
    requires Settled(h, files, db, tenantId, x)
    ensures Settled(h, AfterAppend(files, e), db, tenantId, x)
  {
    if Covers(h, files, db, tenantId) {
      AppendKeepsCoverage(h, files, db, tenantId, e);
    }
  }

  /** What the append reported allows an acknowledgement now: a covered event needs coverage verified now. */
  ghost predicate MayAcknowledge(
    h: Hashing, files: Files, db: Database, tenantId: string, e: Event, result: AppendResult)
  {
    && !result.Refused?
    && (result.CoveredByCheckpoint? ==>
          Covers(h, files, db, tenantId) && e.sequence <= CursorOf(ReadContent(files, JournalPath)))
  }

  /**
   * The second half of a delivery. The verification is awaited, so the journal
   * may have been rotated since the append; the cursor is compared again.
   */
  method Acknowledge(
    j: Journal, db: Database, tenantId: string, e: Event, result: AppendResult, ackFails: bool)
    returns (acks: bool)
    ensures acks <==> !ackFails && MayAcknowledge(j.hash, j.files, db, tenantId, e, result)
  {
    acks := !result.Refused?;
    if result.CoveredByCheckpoint? {
      var coverage := VerifyCheckpointCoverage(j, db, tenantId);
      acks := coverage.valid && e.sequence <= coverage.cursor;
    }
    acks := acks && !ackFails;
  }

  /** Append one leased event and, undisturbed, decide whether it may be acknowledged. */
  method DeliverOne(j: Journal, db: Database, tenantId: string, leased: Lease)
    returns (result: AppendResult, acks: bool)
    modifies j`files
    ensures j.files == AfterAppend(old(j.files), leased.event)
    ensures result == OutcomeOf(old(ReadContent(j.files, JournalPath)), leased.event)
    ensures acks <==> (!leased.crashes && !leased.ackFails && !result.Refused?
                       && (result.CoveredByCheckpoint? ==> Covers(j.hash, j.files, db, tenantId)))
    ensures acks ==> Settled(j.hash, j.files, db, tenantId, leased.event)
    ensures !leased.crashes ==> forall d: DrainState :: d.journal.files == old(j.files) ==>
      AreTurns(j.hash, tenantId, d, leased, db, result, j.files, acks)
  {
    ghost var content := ReadContent(j.files, JournalPath);
    result := j.AppendJournalEvent(leased.event);
    if leased.crashes { return result, false; }
    acks := Acknowledge(j, db, tenantId, leased.event, result, leased.ackFails);
    if result.AlreadyPresent? { PresentMeansIn(content, leased.event); }
  }

  /** Appends only ever extend the journal segment, and keep it ordered. */
  ghost predicate Extends(files: Files, files': Files) {
    var before, after := ReadContent(files, JournalPath), ReadContent(files', JournalPath);
    && before <= after
    && (OrderedSegment(before) ==> OrderedSegment(after))
    && LeadingCheckpoint(after) == LeadingCheckpoint(before)
    && files' - {JournalPath} == files - {JournalPath}
  }

  lemma AppendExtends(files: Files, files': Files, e: Event)
    requires Extends(files, files')
    ensures Extends(files, AfterAppend(files', e))
  {
    var content := ReadContent(files', JournalPath);
    AppendedLine(content, e);
    if OutcomeOf(content, e).Appended? && OrderedSegment(content) {
      AppendKeepsSegmentOrdered(content, e);
    }
  }

  ghost predicate AllSettled(h: Hashing, files: Files, db: Database, tenantId: string, acked: seq<Event>) {
    forall e :: e in acked ==> Settled(h, files, db, tenantId, e)
  }

  lemma AppendKeepsAllSettled(
    h: Hashing, files: Files, db: Database, tenantId: string, e: Event, acked: seq<Event>)
    requires AllSettled(h, files, db, tenantId, acked)
    ensures AllSettled(h, AfterAppend(files, e), db, tenantId, acked)
  {
    forall x | x in acked ensures Settled(h, AfterAppend(files, e), db, tenantId, x) {
      AppendKeepsSettled(h, files, db, tenantId, e, x);
    }
  }

  /**
   * The report agrees with what happened to the segment and to the leases; a
   * drain that stopped early may have appended one event it did not acknowledge.
   */
  ghost predicate Tallied(files: Files, files': Files, acked: seq<Event>, r: Report, unacknowledged: bool) {
    && r.delivered <= |ReadContent(files', JournalPath)| - |ReadContent(files, JournalPath)|
                   <= r.delivered + (if unacknowledged then 1 else 0)
    && r.coveredByCheckpoint == CoveredCount(ReadContent(files, JournalPath), acked)
    && r.delivered + r.alreadyPresent + r.coveredByCheckpoint == |acked|
  }

  function Count(r: Report, result: AppendResult): Report {
    match result
    case Appended => r.(delivered := r.delivered + 1)
    case AlreadyPresent => r.(alreadyPresent := r.alreadyPresent + 1)
    case _ => r.(coveredByCheckpoint := r.coveredByCheckpoint + 1)
  }

  lemma TallyOne(files: Files, files': Files, acked: seq<Event>, r: Report, e: Event)
    requires Extends(files, files') && Tallied(files, files', acked, r, false)
    requires !OutcomeOf(ReadContent(files', JournalPath), e).Refused?
    ensures Tallied(files, AfterAppend(files', e), acked + [e],
                    Count(r, OutcomeOf(ReadContent(files', JournalPath), e)), false)
  {
    assert (acked + [e])[..|acked|] == acked;
  }

  method DrainEventJournal(
    j: Journal, db: Database, tenantId: string, leases: seq<Lease>, maxRecords: nat)
    returns (report: Report, acked: seq<Event>)
    modifies j`files
    ensures Extends(old(j.files), j.files)
    ensures AllSettled(j.hash, j.files, db, tenantId, acked)
    ensures |acked| <= |leases| && |acked| <= maxRecords
    ensures forall i :: 0 <= i < |acked| ==> acked[i] == leases[i].event
    ensures Tallied(old(j.files), j.files, acked, report, |acked| < |leases| && |acked| < maxRecords)
    ensures report.quarantined <= report.failed <= 1
    ensures |acked| < |leases| && |acked| < maxRecords ==>
      leases[|acked|].crashes || report.failed == 1
  {
    report := Report(0, 0, 0, 0, 0);
    acked := [];
    var index := 0;
    while index < maxRecords && index < |leases|
      invariant index <= maxRecords && index <= |leases| && index == |acked|
      invariant forall i :: 0 <= i < index ==> acked[i] == leases[i].event
      invariant Extends(old(j.files), j.files)
      invariant AllSettled(j.hash, j.files, db, tenantId, acked)
      invariant Tallied(old(j.files), j.files, acked, report, false)
      invariant report.failed == 0 == report.quarantined
      decreases maxRecords - index
    {
      var leased := leases[index];
      ghost var files := j.files;
      AppendExtends(old(j.files), files, leased.event);
      AppendKeepsAllSettled(j.hash, files, db, tenantId, leased.event, acked);
      var result, acks := DeliverOne(j, db, tenantId, leased);
      if leased.crashes { return; }
      if !acks {
        report := report.(failed := 1, quarantined := if leased.quarantines then 1 else 0);
        return;
      }
      TallyOne(old(j.files), files, acked, report, leased.event);
      acked := acked + [leased.event];
      report := Count(report, result);
      index := index + 1;
    }
  }

  // ----- drains interleaved with rotations

  /**
   * An append, the reading of the checkpoint and the walk of its chain before
   * the acknowledgement are separate steps, with anything in between; the
   * database row is looked up between the last two. A crash is no
   * acknowledgement.
   */
  datatype DrainStep =
    | Deliver(event: Event)
    | ReadBoundary(event: Event)
    | Confirm(event: Event, result: AppendResult, boundary: Option<Checkpoint>, db: Database, ackFails: bool)
    | Rotate(o: Options)

  /**
   * `appended` are the deliveries whose append has reported and may still be
   * acknowledged, `boundaries` the checkpoints read for covered ones; `verified`
   * collects the cursors of checkpoints that passed coverage verification.
   */
  datatype DrainState = DrainState(
    journal: State, appended: set<(Event, AppendResult)>, boundaries: set<(Event, Checkpoint)>,
    acked: seq<Event>, verified: set<int>)

  const IDLE := DrainState(EMPTY, {}, {}, [], {})

  /** A covered event is confirmed against the checkpoint read for it, verified over the archives of now. */
  ghost predicate Confirms(h: Hashing, tenantId: string, d: DrainState, step: DrainStep)
    requires step.Confirm?
  {
    && (step.event, step.result) in d.appended && !step.ackFails && !step.result.Refused?
    && (step.result.CoveredByCheckpoint? ==>
          && step.boundary.Some? && (step.event, step.boundary.value) in d.boundaries
          && IsBoundary(h, d.journal.files, step.db, tenantId, step.boundary.value)
          && step.event.sequence <= step.boundary.value.databaseCursor)
  }

  ghost function Turn(h: Hashing, tenantId: string, d: DrainState, step: DrainStep): DrainState {
    match step
    case Rotate(o) => d.(journal := Apply(h, d.journal, CheckpointStep(o)))
    case Deliver(e) =>
      d.(journal := Apply(h, d.journal, AppendStep(e)),
         appended := d.appended + {(e, OutcomeOf(Active(d.journal), e))})
    case ReadBoundary(e) =>
      var leading := LeadingCheckpoint(Active(d.journal));
      if leading.None? then d else d.(boundaries := d.boundaries + {(e, leading.value)})
    case Confirm(e, result, boundary, _, _) =>
      if !Confirms(h, tenantId, d, step) then d
      else
        d.(acked := d.acked + [e],
           verified := if result.CoveredByCheckpoint? then d.verified + {boundary.value.databaseCursor} else d.verified)
  }

  /** One undisturbed delivery by the code is an append turn, a reading turn and an acknowledgement turn. */
  ghost predicate AreTurns(
    h: Hashing, tenantId: string, d: DrainState, lease: Lease, db: Database, result: AppendResult,
    files: Files, acks: bool)
  {
    var d1 := Turn(h, tenantId, d, Deliver(lease.event));
    var d2 := Turn(h, tenantId, d1, ReadBoundary(lease.event));
    var leading := LeadingCheckpoint(ReadContent(files, JournalPath));
    var d3 := Turn(h, tenantId, d2, Confirm(lease.event, result, leading, db, lease.ackFails));
    d3.journal.files == files && d3.acked == if acks then d.acked + [lease.event] else d.acked
  }

  ghost function Turns(h: Hashing, tenantId: string, steps: seq<DrainStep>): DrainState {
    if steps == [] then IDLE
    else Turn(h, tenantId, Turns(h, tenantId, steps[..|steps| - 1]), steps[|steps| - 1])
  }

  ghost predicate SoundTurns(h: Hashing, tenantId: string, steps: seq<DrainStep>) {
    forall i :: 0 <= i < |steps| && steps[i].Rotate? ==>
      Sound(h, Turns(h, tenantId, steps[..i]).journal, CheckpointStep(steps[i].o))
  }

  /** Each acknowledged event is in the reachable history or covered by a verified checkpoint. */
  ghost predicate Accounted(d: DrainState) {
    forall e :: e in d.acked ==> e in d.journal.log || exists c :: c in d.verified && e.sequence <= c
  }

  /** Whatever an append reported as present was in the history then, and the history only grows. */
  ghost predicate AppendedIsLogged(d: DrainState) {
    forall x :: x in d.appended && (x.1.Appended? || x.1.AlreadyPresent?) ==> x.0 in d.journal.log
  }

  ghost predicate SafeDrain(h: Hashing, d: DrainState, ps: seq<Path>) {
    && Conserves(h, d.journal, ps) && OrderedSegment(Active(d.journal))
    && Accounted(d) && AppendedIsLogged(d)
  }

  lemma DeliverKeeps(h: Hashing, tenantId: string, d: DrainState, e: Event, ps: seq<Path>)
    requires SafeDrain(h, d, ps)
    ensures SafeDrain(h, Turn(h, tenantId, d, Deliver(e)), ps)
  {
    AppendKeeps(h, d.journal, e, ps);
    var outcome := OutcomeOf(Active(d.journal), e);
    if outcome.Appended? {
      AppendKeepsSegmentOrdered(Active(d.journal), e);
    } else if outcome.AlreadyPresent? {
      PresentMeansIn(Active(d.journal), e);
    }
  }

  lemma ConfirmKeeps(h: Hashing, tenantId: string, d: DrainState, step: DrainStep, ps: seq<Path>)
    requires step.Confirm? && SafeDrain(h, d, ps)
    ensures SafeDrain(h, Turn(h, tenantId, d, step), ps)
  {
    var d' := Turn(h, tenantId, d, step);
    if d'.acked != d.acked {
      var e := step.event;
      assert (e, step.result) in d.appended;
      if step.result.CoveredByCheckpoint? {
        var cursor := step.boundary.value.databaseCursor;
        assert cursor in d'.verified && e.sequence <= cursor;
      }
      forall x | x in d'.acked ensures x in d'.journal.log || exists c :: c in d'.verified && x.sequence <= c {
        assert x in d.acked || x == e;
      }
    }
  }

  lemma FreshSegmentIsOrdered(c: Checkpoint)
    ensures OrderedSegment([CheckpointLine(c)])
  {
  }

  lemma RotateKeeps(h: Hashing, tenantId: string, d: DrainState, step: DrainStep, ps: seq<Path>)
    returns (qs: seq<Path>)
    requires step.Rotate? && SafeDrain(h, d, ps) && Sound(h, d.journal, CheckpointStep(step.o))
    ensures SafeDrain(h, Turn(h, tenantId, d, step), qs)
  {
    qs := ps;
    if !Reuses(Active(d.journal), step.o) {
      qs := RotationKeeps(h, d.journal, step.o, ps);
      FreshSegmentIsOrdered(NewCheckpoint(h, Active(d.journal), step.o));
    }
  }

  /**
   * Whatever the outbox leases, wherever the process stops and whenever sound
   * rotations happen, also between an append, the reading of the checkpoint and
   * the acknowledgement, the active segment stays duplicate-free and ordered,
   * the history is conserved, and every acknowledged event is in it or at or
   * below the cursor of a checkpoint that passed coverage verification.
   */
  lemma {:induction false} DrainRunsAreSafe(h: Hashing, tenantId: string, steps: seq<DrainStep>)
    returns (ps: seq<Path>)
    requires SoundTurns(h, tenantId, steps)
    ensures SafeDrain(h, Turns(h, tenantId, steps), ps)
  {
    if steps == [] {
      ps := [];
    } else {
      var front := steps[..|steps| - 1];
      var step := steps[|steps| - 1];
      assert SoundTurns(h, tenantId, front) by {
        assert forall i :: 0 <= i < |front| ==> front[..i] == steps[..i];
      }
      ps := DrainRunsAreSafe(h, tenantId, front);
      var d := Turns(h, tenantId, front);
      match step
      case Deliver(e) => DeliverKeeps(h, tenantId, d, e, ps);
      case ReadBoundary(_) =>
      case Confirm(_, _, _, _, _) => ConfirmKeeps(h, tenantId, d, step, ps);
      case Rotate(_) => ps := RotateKeeps(h, tenantId, d, step, ps);
    }
  }

  // ----- drains are journal runs

  /** The journal steps of a drain, in order: acknowledgements leave the journal alone. */
  function JournalSteps(steps: seq<DrainStep>): seq<Step> {
    if steps == [] then []
    else
      var front := JournalSteps(steps[..|steps| - 1]);
      match steps[|steps| - 1]
      case Deliver(e) => front + [AppendStep(e)]
      case ReadBoundary(_) => front
      case Confirm(_, _, _, _, _) => front
      case Rotate(o) => front + [CheckpointStep(o)]
  }

  lemma {:induction false} TurnsRunTheJournal(h: Hashing, tenantId: string, steps: seq<DrainStep>)
    ensures Turns(h, tenantId, steps).journal == Run(h, EMPTY, JournalSteps(steps))
  {
    if steps != [] {
      TurnsRunTheJournal(h, tenantId, steps[..|steps| - 1]);
      var front, all := JournalSteps(steps[..|steps| - 1]), JournalSteps(steps);
      if all != front {
        assert all[..|all| - 1] == front;
      }
    }
  }

  predicate ValidSteps(js: seq<Step>) {
    forall i :: 0 <= i < |js| && js[i].CheckpointStep? ==> ValidOptions(js[i].o)
  }

  lemma {:induction false} ValidJournalSteps(steps: seq<DrainStep>)
    requires forall i :: 0 <= i < |steps| && steps[i].Rotate? ==> ValidOptions(steps[i].o)
    ensures ValidSteps(JournalSteps(steps))
  {
    if steps != [] {
      ValidJournalSteps(steps[..|steps| - 1]);
      var last := steps[|steps| - 1];
      var step := if last.Rotate? then CheckpointStep(last.o) else AppendStep(last.event);
      OneMoreValid(JournalSteps(steps[..|steps| - 1]), step);
    }
  }

  lemma OneMoreValid(js: seq<Step>, step: Step)
    requires ValidSteps(js) && (step.CheckpointStep? ==> ValidOptions(step.o))
    ensures ValidSteps(js + [step])
  {
  }

  /** With collision-free digest prefixes, valid options alone make every drain sound. */
  lemma ValidTurnsAreSound(h: Hashing, tenantId: string, steps: seq<DrainStep>)
    requires CollisionFree(h)
    requires forall i :: 0 <= i < |steps| && steps[i].Rotate? ==> ValidOptions(steps[i].o)
    ensures SoundTurns(h, tenantId, steps)
  {
    forall i | 0 <= i < |steps| && steps[i].Rotate?
      ensures Sound(h, Turns(h, tenantId, steps[..i]).journal, CheckpointStep(steps[i].o))
    {
      SoundAtRotation(h, tenantId, steps[..i], steps[i]);
    }
  }

  lemma SoundAtRotation(h: Hashing, tenantId: string, before: seq<DrainStep>, step: DrainStep)
    requires CollisionFree(h) && step.Rotate? && ValidOptions(step.o)
    requires forall i :: 0 <= i < |before| && before[i].Rotate? ==> ValidOptions(before[i].o)
    ensures Sound(h, Turns(h, tenantId, before).journal, CheckpointStep(step.o))
  {
    var js := JournalSteps(before) + [CheckpointStep(step.o)];
    ValidJournalSteps(before);
    OneMoreValid(JournalSteps(before), CheckpointStep(step.o));
    ValidRunIsSound(h, js);
    TurnsRunTheJournal(h, tenantId, before);
    var n := |js| - 1;
    assert js[..n] == JournalSteps(before) && Sound(h, Run(h, EMPTY, js[..n]), js[n]);
  }
}
