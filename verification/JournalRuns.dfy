/**
 * Whole runs of appends and rotations: what is conserved, when a rotation keeps
 * the history, and when the history stays ordered
 * (packages/tasq-cli/src/journal.ts:100-288).
 */
module JournalRuns {
  import opened Common
  import opened JournalModel

  datatype Step = AppendStep(e: Event) | CheckpointStep(o: Options)

  /**
   * `log` is every event reported "appended", in order; `rotations` counts the
   * non-reused rotations of a non-empty journal.
   */
  datatype State = State(files: Files, log: seq<Event>, rotations: nat)

  const EMPTY := State(map[], [], 0)

  function Active(s: State): Content {
    ReadContent(s.files, JournalPath)
  }

  function Apply(h: Hashing, s: State, step: Step): State {
    match step
    case AppendStep(e) =>
      State(AfterAppend(s.files, e),
            if OutcomeOf(Active(s), e).Appended? then s.log + [e] else s.log,
            s.rotations)
    case CheckpointStep(o) =>
      State(AfterCheckpoint(h, s.files, o), s.log,
            s.rotations + (if Reuses(Active(s), o) || Active(s) == [] then 0 else 1))
  }

  function Run(h: Hashing, s: State, steps: seq<Step>): State {
    if steps == [] then s else Apply(h, Run(h, s, steps[..|steps| - 1]), steps[|steps| - 1])
  }

  /** Events of the archives `ps`, oldest archive first. */
  function ArchivedEvents(files: Files, ps: seq<Path>): seq<Event> {
    if ps == [] then [] else ArchivedEvents(files, ps[1..]) + EventsOf(ReadContent(files, ps[0]))
  }

  /** `ps` is the intact chain behind the active segment and, with it, holds exactly the log. */
  ghost predicate Conserves(h: Hashing, s: State, ps: seq<Path>) {
    && Chain(h, s.files, PreviousOf(Active(s)), ps)
    && |ps| == s.rotations
    && ArchivedEvents(s.files, ps) + EventsOf(Active(s)) == s.log
    && forall p :: p in ps ==>
         p.ArchivePath? && p in s.files && p.mark == h.prefix(h.sha256(s.files[p]))
  }

  predicate ValidOptions(o: Options) {
    && o.tenantId != ""
    && IsSafeNat(o.databaseCursor)
    && o.actor != ""
    && !IsBlankText(o.reason)
    && IsSafeNat(o.now)
  }

  /** The archive name this rotation picks is not already in the chain. */
  ghost predicate FreshTarget(h: Hashing, s: State, o: Options) {
    Active(s) == [] ||
    forall ps :: Chain(h, s.files, PreviousOf(Active(s)), ps) ==> ArchiveTarget(h, Active(s), o) !in ps
  }

  ghost predicate Sound(h: Hashing, s: State, step: Step) {
    step.CheckpointStep? && !Reuses(Active(s), step.o) ==>
      ValidOptions(step.o) && FreshTarget(h, s, step.o)
  }

  // ----- frame lemmas

  lemma {:induction false} ChainFrame(
    h: Hashing, files: Files, files': Files, previous: Option<SegmentRef>, ps: seq<Path>)
    requires Chain(h, files, previous, ps)
    requires forall p :: p in ps && p in files ==> p in files' && files'[p] == files[p]
    ensures Chain(h, files', previous, ps)
    ensures ArchivedEvents(files', ps) == ArchivedEvents(files, ps)
    decreases |ps|
  {
    if previous.Some? {
      ChainFrame(h, files, files', PreviousOf(files[ps[0]]), ps[1..]);
    }
  }

  /** Two chains from one start agree for as long as the files they read agree. */
  lemma {:induction false} ChainAgrees(
    h: Hashing, files: Files, files': Files, previous: Option<SegmentRef>,
    ps: seq<Path>, qs: seq<Path>, i: nat)
    requires Chain(h, files, previous, ps) && Chain(h, files', previous, qs) && i < |ps|
    requires forall j :: 0 <= j < i ==> ps[j] in files && ps[j] in files' && files[ps[j]] == files'[ps[j]]
    ensures i < |qs| && qs[i] == ps[i]
    decreases i
  {
    if i > 0 {
      assert files[ps[0]] == files'[ps[0]];
      ChainAgrees(h, files, files', PreviousOf(files[ps[0]]), ps[1..], qs[1..], i - 1);
    }
  }

  lemma {:induction false} AppendedLeading(content: Content, e: Event)
    ensures LeadingCheckpoint(content + [LineOf(e)]) == LeadingCheckpoint(content)
  {
    if content != [] {
      AppendedLeading(content[1..], e);
      assert (content + [LineOf(e)])[1..] == content[1..] + [LineOf(e)];
    }
  }

  lemma Regroup(a: seq<Event>, b: seq<Event>, c: seq<Event>)
    ensures a + (b + c) == (a + b) + c
  {
  }

  lemma {:induction false} AppendedEvents(content: Content, e: Event)
    ensures EventsOf(content + [LineOf(e)]) == EventsOf(content) + [e]
  {
    var longer := content + [LineOf(e)];
    if content == [] {
      assert longer[1..] == [];
    } else {
      AppendedEvents(content[1..], e);
      assert longer[1..] == content[1..] + [LineOf(e)];
      Regroup(EventOn(content[0]), EventsOf(content[1..]), [e]);
    }
  }

  lemma AppendedLine(content: Content, e: Event)
    ensures LeadingCheckpoint(content + [LineOf(e)]) == LeadingCheckpoint(content)
    ensures EventsOf(content + [LineOf(e)]) == EventsOf(content) + [e]
  {
    AppendedLeading(content, e);
    AppendedEvents(content, e);
  }

  lemma FreshCheckpointReads(h: Hashing, content: Content, o: Options)
    ensures var segment := [CheckpointLine(NewCheckpoint(h, content, o))];
      && EventsOf(segment) == []
      && (LeadingCheckpoint(segment).Some? <==> ValidOptions(o))
      && (ValidOptions(o) ==> LeadingCheckpoint(segment) == Some(NewCheckpoint(h, content, o)))
  {
  }

  /**
   * A rotation with valid options installs a readable checkpoint that says what
   * the options say, with the reason trimmed, and points at the old content.
   */
  lemma RotationInstalls(h: Hashing, s: State, o: Options)
    requires ValidOptions(o) && !Reuses(Active(s), o)
    ensures var s' := Apply(h, s, CheckpointStep(o));
      && LeadingCheckpoint(Active(s')).Some? && |Active(s')| == 1
      && var c := LeadingCheckpoint(Active(s')).value;
         && Says(c, o)
         && (c.previousSegment.Some? <==> Active(s) != [])
         && (c.previousSegment.Some? ==>
               && c.previousSegment.value.path ==
                    Inside(ArchivePath(o.now, o.databaseCursor, h.prefix(h.sha256(Active(s)))))
               && c.previousSegment.value.sha256 == h.sha256(Active(s))
               && c.previousSegment.value.sizeBytes == h.byteLength(Active(s))
               && ReadContent(s'.files, c.previousSegment.value.path.target) == Active(s))
  {
    FreshCheckpointReads(h, Active(s), o);
    NewCheckpointSays(h, Active(s), o);
  }

  /**
   * Repeating a rotation immediately changes nothing, for every call with the
   * same tenant, cursor and event id and for no other.
   */
  lemma RepeatChangesNothingExactly(h: Hashing, s: State, o: Options, again: Options)
    requires ValidOptions(o) && !Reuses(Active(s), o)
    ensures var s' := Apply(h, s, CheckpointStep(o));
      Apply(h, s', CheckpointStep(again)) == s' <==>
        again.tenantId == o.tenantId && again.databaseCursor == o.databaseCursor
        && again.databaseEventId == o.databaseEventId
  {
    var s' := Apply(h, s, CheckpointStep(o));
    RotationInstalls(h, s, o);
    OneLine(Active(s')[0]);
    assert Active(s') == [Active(s')[0]];
  }

  lemma OneLine(a: Line)
    requires !a.Blank?
    ensures NonBlankLines([a]) == 1
  {
    assert [a][1..] == [];
  }

  // ----- one step

  lemma AppendKeeps(h: Hashing, s: State, e: Event, ps: seq<Path>)
    requires Conserves(h, s, ps)
    ensures Conserves(h, Apply(h, s, AppendStep(e)), ps)
  {
    if OutcomeOf(Active(s), e).Appended? {
      AppendedLine(Active(s), e);
      ChainFrame(h, s.files, AfterAppend(s.files, e), PreviousOf(Active(s)), ps);
      Regroup(ArchivedEvents(s.files, ps), EventsOf(Active(s)), [e]);
    }
  }

  lemma RotationKeeps(h: Hashing, s: State, o: Options, ps: seq<Path>) returns (qs: seq<Path>)
    requires Conserves(h, s, ps) && !Reuses(Active(s), o)
    requires ValidOptions(o) && (Active(s) == [] || ArchiveTarget(h, Active(s), o) !in ps)
    ensures Conserves(h, Apply(h, s, CheckpointStep(o)), qs)
    ensures qs == if Active(s) == [] then [] else [ArchiveTarget(h, Active(s), o)] + ps
    ensures ArchivedEvents(Apply(h, s, CheckpointStep(o)).files, qs) == s.log
  {
    var s' := Apply(h, s, CheckpointStep(o));
    FreshCheckpointReads(h, Active(s), o);
    if Active(s) == [] {
      qs := [];
    } else {
      qs := [ArchiveTarget(h, Active(s), o)] + ps;
      ArchivingKeeps(h, s, o, ps, qs);
    }
  }

  lemma ArchivingKeeps(h: Hashing, s: State, o: Options, ps: seq<Path>, qs: seq<Path>)
    requires Conserves(h, s, ps) && !Reuses(Active(s), o) && Active(s) != []
    requires ValidOptions(o) && ArchiveTarget(h, Active(s), o) !in ps
    requires qs == [ArchiveTarget(h, Active(s), o)] + ps
    ensures var s' := Apply(h, s, CheckpointStep(o));
      && Chain(h, s'.files, PreviousOf(Active(s')), qs)
      && ArchivedEvents(s'.files, qs) == s.log
  {
    var s' := Apply(h, s, CheckpointStep(o));
    FreshCheckpointReads(h, Active(s), o);
    ChainFrame(h, s.files, s'.files, PreviousOf(Active(s)), ps);
    assert qs[1..] == ps;
  }

  /**
   * A rotation leaves a readable checkpoint behind which the whole history is
   * still reachable if and only if its options are valid and its archive name
   * is not already in the chain. The code checks neither.
   */
  lemma RotationExact(h: Hashing, s: State, o: Options, ps: seq<Path>)
    requires Conserves(h, s, ps) && !Reuses(Active(s), o)
    ensures
      var s' := Apply(h, s, CheckpointStep(o));
      (LeadingCheckpoint(Active(s')).Some? && exists qs :: Conserves(h, s', qs))
      <==> ValidOptions(o) && (Active(s) == [] || ArchiveTarget(h, Active(s), o) !in ps)
  {
    var s' := Apply(h, s, CheckpointStep(o));
    var target := ArchiveTarget(h, Active(s), o);
    FreshCheckpointReads(h, Active(s), o);
    if ValidOptions(o) && (Active(s) == [] || target !in ps) {
      var qs := RotationKeeps(h, s, o, ps);
    } else if ValidOptions(o) {
      var i :| 0 <= i < |ps| && ps[i] == target;
      ChainDistinct(h, s.files, PreviousOf(Active(s)), ps);
      forall qs | Conserves(h, s', qs) ensures false {
        ChainAgrees(h, s.files, s'.files, PreviousOf(Active(s)), ps, qs[1..], i);
        assert qs[0] == qs[i + 1];
        ChainDistinct(h, s'.files, PreviousOf(Active(s')), qs);
      }
    }
  }

  const FIRST := Event("a", 1)
  const SECOND := Event("b", 2)

  /** A journal of one event, appended to an empty one. */
  const ONE := State(map[JournalPath := [LineOf(FIRST)]], [FIRST], 0)

  lemma OneIsReached(h: Hashing)
    ensures ONE == Apply(h, EMPTY, AppendStep(FIRST))
  {
    assert [] + [LineOf(FIRST)] == [LineOf(FIRST)] && [] + [FIRST] == [FIRST];
    assert OutcomeOf([], FIRST) == Appended;
  }

  /** Rotating with a blank reason is not refused and leaves a checkpoint that no reader accepts. */
  lemma BlankReasonLosesTheHistory(h: Hashing)
    ensures var o := Options("t", 1, None, "me", " ", 0);
      && ONE == Apply(h, EMPTY, AppendStep(FIRST))
      && !Reuses(Active(ONE), o)
      && LeadingCheckpoint(Active(Apply(h, ONE, CheckpointStep(o)))).None?
  {
    var o := Options("t", 1, None, "me", " ", 0);
    OneIsReached(h);
    assert IsBlankText(" ");
    FreshCheckpointReads(h, Active(ONE), o);
  }

  /** A digest under which everything collides. */
  const COLLIDING := Hashing(_ => 0, _ => 0, _ => 0)

  const SAME_OPTIONS := Options("t", 1, None, "me", "why", 0)

  lemma FirstRotation()
    ensures ValidOptions(SAME_OPTIONS)
    ensures var s1 := Apply(COLLIDING, ONE, CheckpointStep(SAME_OPTIONS));
      && Conserves(COLLIDING, s1, [ArchivePath(0, 1, 0)]) && s1.log == [FIRST]
      && |Active(s1)| == 1 && Active(s1)[0].CheckpointLine?
      && LeadingCheckpoint(Active(s1)).Some? && CursorOf(Active(s1)) == 1
  {
    assert !IsBlankText("why") by { assert !IsWhite("why"[0]); }
    assert Chain(COLLIDING, ONE.files, None, []);
    assert EventsOf([LineOf(FIRST)]) == [FIRST] by { assert [LineOf(FIRST)][1..] == []; }
    assert Conserves(COLLIDING, ONE, []);
    var ps := RotationKeeps(COLLIDING, ONE, SAME_OPTIONS, []);
    assert ps == [ArchivePath(0, 1, 0)];
    FreshCheckpointReads(COLLIDING, Active(ONE), SAME_OPTIONS);
  }

  /** One rotation, one append, and the same rotation again: the second archive overwrites the first. */
  lemma CollidingNamesLoseTheHistory()
    ensures var s1 := Apply(COLLIDING, ONE, CheckpointStep(SAME_OPTIONS));
      var s2 := Apply(COLLIDING, s1, AppendStep(SECOND));
      var s3 := Apply(COLLIDING, s2, CheckpointStep(SAME_OPTIONS));
      && s3.log == [FIRST, SECOND] && ValidOptions(SAME_OPTIONS)
      && !exists qs :: Conserves(COLLIDING, s3, qs)
  {
    FirstRotation();
    var s1 := Apply(COLLIDING, ONE, CheckpointStep(SAME_OPTIONS));
    CursorOnlyAppends(Active(s1), SECOND);
    var s2 := Apply(COLLIDING, s1, AppendStep(SECOND));
    assert [FIRST] + [SECOND] == [FIRST, SECOND];
    assert Active(s2) == [Active(s1)[0], LineOf(SECOND)];
    SecondRotation(s1, s2, Active(s1)[0]);
  }

  lemma SecondRotation(s1: State, s2: State, line: Line)
    requires Conserves(COLLIDING, s1, [ArchivePath(0, 1, 0)]) && s2 == Apply(COLLIDING, s1, AppendStep(SECOND))
    requires Active(s2) == [line, LineOf(SECOND)] && line.CheckpointLine? && ValidOptions(SAME_OPTIONS)
    ensures !exists qs :: Conserves(COLLIDING, Apply(COLLIDING, s2, CheckpointStep(SAME_OPTIONS)), qs)
  {
    AppendKeeps(COLLIDING, s1, SECOND, [ArchivePath(0, 1, 0)]);
    TwoLines(line, LineOf(SECOND));
    RotationExact(COLLIDING, s2, SAME_OPTIONS, [ArchivePath(0, 1, 0)]);
    FreshCheckpointReads(COLLIDING, Active(s2), SAME_OPTIONS);
  }

  lemma TwoLines(a: Line, b: Line)
    requires !a.Blank? && !b.Blank?
    ensures NonBlankLines([a, b]) == 2
  {
    assert [a, b][1..] == [b] && [b][1..] == [];
    assert NonBlankLines([b]) == 1;
  }

  /** A segment that is only a checkpoint takes exactly the events above its cursor. */
  lemma CursorOnlyAppends(content: Content, e: Event)
    requires |content| == 1 && content[0].CheckpointLine? && LeadingCheckpoint(content).Some?
    ensures OutcomeOf(content, e) == if e.sequence <= CursorOf(content) then CoveredByCheckpoint else Appended
  {
    assert FirstObstacle(content, e).None?;
  }

  /** Digest prefixes that never collide keep every archive name out of the chain. */
  ghost predicate CollisionFree(h: Hashing) {
    forall c, d :: h.prefix(h.sha256(c)) == h.prefix(h.sha256(d)) ==> c == d
  }

  lemma CollisionFreeTargetIsFresh(h: Hashing, s: State, o: Options, ps: seq<Path>)
    requires CollisionFree(h) && Conserves(h, s, ps) && Active(s) != []
    ensures ArchiveTarget(h, Active(s), o) !in ps
  {
    if i :| 0 <= i < |ps| && ps[i] == ArchiveTarget(h, Active(s), o) {
      assert s.files[ps[i]] == Active(s);
      ChainSuffix(h, s.files, PreviousOf(Active(s)), ps, i);
      ChainUnique(h, s.files, PreviousOf(Active(s)), ps, ps[i + 1..]);
    }
  }

  // ----- whole runs

  ghost predicate SoundRun(h: Hashing, steps: seq<Step>) {
    forall i :: 0 <= i < |steps| ==> Sound(h, Run(h, EMPTY, steps[..i]), steps[i])
  }

  lemma SoundPrefix(h: Hashing, steps: seq<Step>)
    requires SoundRun(h, steps) && steps != []
    ensures SoundRun(h, steps[..|steps| - 1])
  {
    var front := steps[..|steps| - 1];
    assert forall i :: 0 <= i < |front| ==> front[..i] == steps[..i];
  }

  /**
   * In every sound run from an empty journal the events reported appended are,
   * in order and with the same multiplicity, the events of the reachable
   * archives followed by the active segment, and the chain has one archive per
   * counted rotation.
   */
  lemma {:induction false} RunConserves(h: Hashing, steps: seq<Step>) returns (ps: seq<Path>)
    requires SoundRun(h, steps)
    ensures Conserves(h, Run(h, EMPTY, steps), ps)
  {
    if steps == [] {
      ps := [];
    } else {
      var front := steps[..|steps| - 1];
      var step := steps[|steps| - 1];
      SoundPrefix(h, steps);
      ps := RunConserves(h, front);
      var s := Run(h, EMPTY, front);
      assert Sound(h, s, step);
      match step
      case AppendStep(e) => AppendKeeps(h, s, e, ps);
      case CheckpointStep(o) =>
        if !Reuses(Active(s), o) {
          ps := RotationKeeps(h, s, o, ps);
        }
    }
  }

  /** So the archive verifier accepts what a sound run leaves behind and counts its rotations. */
  lemma VerifierCountsRotations(h: Hashing, steps: seq<Step>)
    requires SoundRun(h, steps)
    ensures var s := Run(h, EMPTY, steps);
      && Intact(h, s.files, PreviousOf(Active(s)))
      && forall ps :: Chain(h, s.files, PreviousOf(Active(s)), ps) ==> |ps| == s.rotations
  {
    var s := Run(h, EMPTY, steps);
    var ps := RunConserves(h, steps);
    forall qs | Chain(h, s.files, PreviousOf(Active(s)), qs) ensures |qs| == s.rotations {
      ChainUnique(h, s.files, PreviousOf(Active(s)), ps, qs);
    }
  }

  /** With collision-free digest prefixes, valid options alone make a run sound. */
  lemma {:induction false} ValidRunIsSound(h: Hashing, steps: seq<Step>)
    requires CollisionFree(h)
    requires forall i :: 0 <= i < |steps| && steps[i].CheckpointStep? ==> ValidOptions(steps[i].o)
    ensures SoundRun(h, steps)
  {
    if steps != [] {
      var front := steps[..|steps| - 1];
      ValidRunIsSound(h, front);
      forall i | 0 <= i < |steps| ensures Sound(h, Run(h, EMPTY, steps[..i]), steps[i]) {
        if i < |front| {
          assert front[..i] == steps[..i];
        } else if steps[i].CheckpointStep? {
          var ps := RunConserves(h, front);
          var s := Run(h, EMPTY, front);
          if Active(s) != [] {
            CollisionFreeTargetIsFresh(h, s, steps[i].o, ps);
            forall qs | Chain(h, s.files, PreviousOf(Active(s)), qs) ensures qs == ps {
              ChainUnique(h, s.files, PreviousOf(Active(s)), ps, qs);
            }
          }
        }
      }
    }
  }

  predicate StrictlyIncreasing(log: seq<Event>) {
    forall i, j :: 0 <= i < j < |log| ==> log[i].sequence < log[j].sequence
  }

  /** Every rotation takes a cursor at or above everything journaled so far. */
  ghost predicate CoveringRun(h: Hashing, steps: seq<Step>) {
    forall i :: 0 <= i < |steps| && steps[i].CheckpointStep? ==>
      forall e :: e in Run(h, EMPTY, steps[..i]).log ==> e.sequence <= steps[i].o.databaseCursor
  }

  lemma {:induction false} EventsAreBelow(content: Content, bound: int)
    requires AllBelow(content, bound)
    ensures forall e :: e in EventsOf(content) ==> e.sequence < bound
  {
    if content != [] {
      assert forall i :: 0 <= i < |content| - 1 ==> content[1..][i] == content[i + 1];
      EventsAreBelow(content[1..], bound);
    }
  }

  /** The log is strictly increasing and the archived part is at or below the active cursor. */
  ghost predicate Ordered(s: State, ps: seq<Path>) {
    && StrictlyIncreasing(s.log)
    && forall e :: e in ArchivedEvents(s.files, ps) ==> e.sequence <= CursorOf(Active(s))
  }

  lemma LogIsBelow(h: Hashing, s: State, e: Event, ps: seq<Path>)
    requires Conserves(h, s, ps) && Ordered(s, ps) && OutcomeOf(Active(s), e).Appended?
    ensures forall i :: 0 <= i < |s.log| ==> s.log[i].sequence < e.sequence
  {
    EventsAreBelow(Active(s), e.sequence);
    var a, b := ArchivedEvents(s.files, ps), EventsOf(Active(s));
    forall i | 0 <= i < |s.log| ensures s.log[i].sequence < e.sequence {
      if i < |a| {
        assert s.log[i] == a[i] && a[i] in a;
      } else {
        assert s.log[i] == b[i - |a|] && b[i - |a|] in b;
      }
    }
  }

  lemma AppendKeepsOrder(h: Hashing, s: State, e: Event, ps: seq<Path>)
    requires Conserves(h, s, ps) && Ordered(s, ps)
    ensures Ordered(Apply(h, s, AppendStep(e)), ps)
  {
    if OutcomeOf(Active(s), e).Appended? {
      LogIsBelow(h, s, e, ps);
      AppendedLine(Active(s), e);
      ChainFrame(h, s.files, AfterAppend(s.files, e), PreviousOf(Active(s)), ps);
    }
  }

  /**
   * A sound, covering run keeps the whole chain strictly increasing, so every
   * event reported appended is in it exactly once.
   */
  lemma {:induction false} CoveringRunIsOrdered(h: Hashing, steps: seq<Step>) returns (ps: seq<Path>)
    requires SoundRun(h, steps) && CoveringRun(h, steps)
    ensures Conserves(h, Run(h, EMPTY, steps), ps) && Ordered(Run(h, EMPTY, steps), ps)
    ensures Distinct(Run(h, EMPTY, steps).log)
  {
    if steps == [] {
      ps := [];
    } else {
      var front := steps[..|steps| - 1];
      var step := steps[|steps| - 1];
      SoundPrefix(h, steps);
      assert CoveringRun(h, front) by {
        assert forall i :: 0 <= i < |front| ==> front[..i] == steps[..i];
      }
      ps := CoveringRunIsOrdered(h, front);
      var s := Run(h, EMPTY, front);
      assert Sound(h, s, step);
      match step
      case AppendStep(e) =>
        AppendKeeps(h, s, e, ps);
        AppendKeepsOrder(h, s, e, ps);
      case CheckpointStep(o) =>
        if !Reuses(Active(s), o) {
          ps := RotationKeeps(h, s, o, ps);
          FreshCheckpointReads(h, Active(s), o);
        }
    }
  }

  // ----- when a rotation lets an event be journaled again

  /** The states that follow when only appends come. */
  function Appends(h: Hashing, s: State, events: seq<Event>): State {
    if events == [] then s else Apply(h, Appends(h, s, events[..|events| - 1]), AppendStep(events[|events| - 1]))
  }

  /** The old history is at or below the cursor and the rest of the log is the active segment. */
  ghost predicate Sealed(s: State, past: seq<Event>) {
    && LeadingCheckpoint(Active(s)).Some?
    && s.log == past + EventsOf(Active(s)) && Distinct(s.log)
    && forall e :: e in past ==> e.sequence <= CursorOf(Active(s))
  }

  lemma AppendKeepsSealed(h: Hashing, s: State, past: seq<Event>, e: Event)
    requires Sealed(s, past)
    ensures Sealed(Apply(h, s, AppendStep(e)), past)
  {
    if OutcomeOf(Active(s), e).Appended? {
      AppendedLine(Active(s), e);
      EventsAreBelow(Active(s), e.sequence);
      Regroup(past, EventsOf(Active(s)), [e]);
      forall i | 0 <= i < |s.log| ensures s.log[i] != e {
        assert s.log[i] == if i < |past| then past[i] else EventsOf(Active(s))[i - |past|];
        assert s.log[i] in past || s.log[i] in EventsOf(Active(s));
      }
    }
  }

  lemma {:induction false} AppendsKeepSealed(h: Hashing, s: State, past: seq<Event>, events: seq<Event>)
    requires Sealed(s, past)
    ensures Sealed(Appends(h, s, events), past)
  {
    if events != [] {
      AppendsKeepSealed(h, s, past, events[..|events| - 1]);
      AppendKeepsSealed(h, Appends(h, s, events[..|events| - 1]), past, events[|events| - 1]);
    }
  }

  /** Some sequence of appends makes the log hold an event twice. */
  ghost predicate MayRepeat(h: Hashing, s: State) {
    exists events :: !Distinct(Appends(h, s, events).log)
  }

  lemma RepeatedAtOnce(h: Hashing, s: State, e: Event)
    requires e in s.log && OutcomeOf(Active(s), e).Appended?
    ensures MayRepeat(h, s)
  {
    var i :| 0 <= i < |s.log| && s.log[i] == e;
    var s' := Appends(h, s, [e]);
    assert [e][..|[e]| - 1] == [] && s' == Apply(h, Appends(h, s, []), AppendStep(e));
    assert s'.log == s.log + [e];
    assert s'.log[i] == s'.log[|s.log|];
  }

  /**
   * After a rotation of a duplicate-free history, some later append journals an
   * event a second time if and only if the cursor is below the sequence of an
   * event journaled before.
   */
  lemma RepeatsExactly(h: Hashing, s: State, o: Options)
    requires Distinct(s.log) && !Reuses(Active(s), o) && ValidOptions(o)
    ensures MayRepeat(h, Apply(h, s, CheckpointStep(o))) <==> exists e :: e in s.log && o.databaseCursor < e.sequence
  {
    var s' := Apply(h, s, CheckpointStep(o));
    FreshCheckpointReads(h, Active(s), o);
    assert s'.log + [] == s'.log;
    if e :| e in s.log && o.databaseCursor < e.sequence {
      CursorOnlyAppends(Active(s'), e);
      RepeatedAtOnce(h, s', e);
    } else {
      assert Sealed(s', s.log);
      forall events ensures Distinct(Appends(h, s', events).log) {
        AppendsKeepSealed(h, s', s.log, events);
      }
    }
  }

  /** Append an event, rotate below its sequence, append it again: it is reported appended twice. */
  lemma LowCursorJournalsTwice(h: Hashing)
    ensures var o := Options("t", 0, None, "me", "why", 0);
      var s := Apply(h, Apply(h, ONE, CheckpointStep(o)), AppendStep(FIRST));
      ONE == Apply(h, EMPTY, AppendStep(FIRST)) && ValidOptions(o) && s.log == [FIRST, FIRST]
  {
    var o := Options("t", 0, None, "me", "why", 0);
    OneIsReached(h);
    assert !IsBlankText("why") by { assert !IsWhite("why"[0]); }
    FreshCheckpointReads(h, Active(ONE), o);
    CursorOnlyAppends(Active(Apply(h, ONE, CheckpointStep(o))), FIRST);
  }
}
