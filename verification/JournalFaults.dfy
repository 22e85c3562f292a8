/**
 * Runs of the journal in which rotations may fail anywhere in their rename
 * block (packages/tasq-cli/src/journal.ts:198-227): what a failed rotation does
 * to the history.
 *
 * A temporary file that could not be removed is never read again and the next
 * one has another name, so it is dropped here.
 */
module JournalFaults {
  import opened Common
  import opened JournalModel
  import opened JournalRuns

  datatype FaultStep = Append(e: Event) | Rotate(o: Options, f: Faults)

  /** The new checkpoint gets installed, whether or not the call then returns. */
  predicate Completes(content: Content, o: Options, f: Faults) {
    !Reuses(content, o) && !f.install && (content != [] ==> !f.prepareArchive && !f.moveAway)
  }

  /** The old segment was moved away and the rollback moved it back. */
  predicate MovesBack(content: Content, o: Options, f: Faults) {
    && content != [] && !Reuses(content, o)
    && !f.prepareArchive && !f.moveAway && f.install && !f.unlinkTemporary && !f.moveBack
  }

  function ApplyFaulty(h: Hashing, s: State, step: FaultStep): State {
    match step
    case Append(e) => Apply(h, s, AppendStep(e))
    case Rotate(o, f) =>
      State(AfterFaults(h, s.files, o, f) - {TemporaryPath}, s.log,
            s.rotations + (if Completes(Active(s), o, f) && Active(s) != [] then 1 else 0))
  }

  function RunFaulty(h: Hashing, steps: seq<FaultStep>): State {
    if steps == [] then EMPTY else ApplyFaulty(h, RunFaulty(h, steps[..|steps| - 1]), steps[|steps| - 1])
  }

  ghost predicate Kept(h: Hashing, s: State) {
    exists ps :: Conserves(h, s, ps)
  }

  /**
   * A rotation loses history when it strands a segment although there is any
   * history, or when moving the segment back removes an archive of its own
   * chain, which only a name that was already taken makes possible.
   */
  predicate Loses(h: Hashing, s: State, o: Options, f: Faults, ps: seq<Path>) {
    || (Strands(Active(s), o, f) && (s.log != [] || s.rotations > 0))
    || (MovesBack(Active(s), o, f) && ArchiveTarget(h, Active(s), o) in ps)
  }

  lemma CompletedIsRotation(h: Hashing, s: State, o: Options, f: Faults)
    requires TemporaryPath !in s.files && Completes(Active(s), o, f)
    ensures ApplyFaulty(h, s, Rotate(o, f)) == Apply(h, s, CheckpointStep(o))
  {
    var files := AfterRotation(h, s.files, o);
    assert files - {TemporaryPath} == files;
  }

  lemma UndoneChangesNothing(h: Hashing, s: State, o: Options, f: Faults)
    requires TemporaryPath !in s.files && !Completes(Active(s), o, f)
    requires !Strands(Active(s), o, f) && !MovesBack(Active(s), o, f)
    ensures ApplyFaulty(h, s, Rotate(o, f)) == s
  {
    assert ApplyFaulty(h, s, Rotate(o, f)).files == s.files;
  }

  lemma MovedBackDropsTheTarget(h: Hashing, s: State, o: Options, f: Faults)
    requires TemporaryPath !in s.files && MovesBack(Active(s), o, f)
    ensures ApplyFaulty(h, s, Rotate(o, f)) == s.(files := s.files - {ArchiveTarget(h, Active(s), o)})
    ensures Active(ApplyFaulty(h, s, Rotate(o, f))) == Active(s)
  {
    assert ApplyFaulty(h, s, Rotate(o, f)).files == s.files - {ArchiveTarget(h, Active(s), o)};
  }

  /** Without one of its archives no chain starts from the active segment. */
  lemma MissingArchiveBreaksTheChain(h: Hashing, files: Files, previous: Option<SegmentRef>, ps: seq<Path>, p: Path)
    requires Chain(h, files, previous, ps) && p in ps
    ensures !Intact(h, files - {p}, previous)
  {
    var i :| 0 <= i < |ps| && ps[i] == p;
    ChainDistinct(h, files, previous, ps);
    forall qs ensures !Chain(h, files - {p}, previous, qs) {
      if Chain(h, files - {p}, previous, qs) {
        forall j | 0 <= j < i ensures ps[j] in files && ps[j] in files - {p} {
          ChainSuffix(h, files, previous, ps, j);
        }
        ChainAgrees(h, files, files - {p}, previous, ps, qs, i);
        ChainSuffix(h, files - {p}, previous, qs, i);
      }
    }
  }

  lemma MovedBackExactly(h: Hashing, s: State, o: Options, f: Faults, ps: seq<Path>)
    requires TemporaryPath !in s.files && MovesBack(Active(s), o, f) && Conserves(h, s, ps)
    ensures ArchiveTarget(h, Active(s), o) !in ps ==> Conserves(h, ApplyFaulty(h, s, Rotate(o, f)), ps)
    ensures Kept(h, ApplyFaulty(h, s, Rotate(o, f))) <==> ArchiveTarget(h, Active(s), o) !in ps
  {
    var target := ArchiveTarget(h, Active(s), o);
    MovedBackDropsTheTarget(h, s, o, f);
    if target in ps {
      MissingArchiveBreaksTheChain(h, s.files, PreviousOf(Active(s)), ps, target);
    } else {
      ChainFrame(h, s.files, s.files - {target}, PreviousOf(Active(s)), ps);
    }
  }

  lemma StrandedExactly(h: Hashing, s: State, o: Options, f: Faults)
    requires TemporaryPath !in s.files && Strands(Active(s), o, f)
    ensures Kept(h, ApplyFaulty(h, s, Rotate(o, f))) <==> s.log == [] && s.rotations == 0
    ensures s.log == [] && s.rotations == 0 ==> Conserves(h, ApplyFaulty(h, s, Rotate(o, f)), [])
  {
    var s' := ApplyFaulty(h, s, Rotate(o, f));
    FailureAtomicExactly(h, s.files, o, f);
    assert Active(s') == [];
    if s.log == [] && s.rotations == 0 {
      assert Conserves(h, s', []);
    }
  }

  /** The options are valid and the archive name is not in the chain; asked only of rotations that complete. */
  ghost predicate SoundIfCompleted(h: Hashing, s: State, o: Options, f: Faults) {
    Completes(Active(s), o, f) ==> Sound(h, s, CheckpointStep(o))
  }

  /**
   * A rotation that may fail anywhere keeps the history if and only if it does
   * not strand it and does not, moving the segment back, remove an archive the
   * history rests on.
   */
  lemma FaultyRotationExactly(h: Hashing, s: State, o: Options, f: Faults, ps: seq<Path>) returns (qs: seq<Path>)
    requires TemporaryPath !in s.files && Conserves(h, s, ps) && SoundIfCompleted(h, s, o, f)
    ensures Kept(h, ApplyFaulty(h, s, Rotate(o, f))) <==> !Loses(h, s, o, f, ps)
    ensures !Loses(h, s, o, f, ps) ==> Conserves(h, ApplyFaulty(h, s, Rotate(o, f)), qs)
  {
    qs := ps;
    if Completes(Active(s), o, f) {
      CompletedIsRotation(h, s, o, f);
      qs := RotationKeeps(h, s, o, ps);
    } else if Strands(Active(s), o, f) {
      StrandedExactly(h, s, o, f);
      qs := [];
    } else if MovesBack(Active(s), o, f) {
      MovedBackExactly(h, s, o, f, ps);
    } else {
      UndoneChangesNothing(h, s, o, f);
    }
  }

  /** What one step asks: nothing of an append; of a rotation that it is sound if completed, and loses nothing. */
  ghost predicate Harmless(h: Hashing, s: State, step: FaultStep) {
    step.Rotate? ==>
      && SoundIfCompleted(h, s, step.o, step.f)
      && forall ps :: Conserves(h, s, ps) ==> !Loses(h, s, step.o, step.f, ps)
  }

  ghost predicate HarmlessRun(h: Hashing, steps: seq<FaultStep>) {
    steps == [] ||
    (HarmlessRun(h, steps[..|steps| - 1])
     && Harmless(h, RunFaulty(h, steps[..|steps| - 1]), steps[|steps| - 1]))
  }

  lemma {:induction false} TemporaryIsGone(h: Hashing, steps: seq<FaultStep>)
    ensures TemporaryPath !in RunFaulty(h, steps).files
  {
    if steps != [] {
      TemporaryIsGone(h, steps[..|steps| - 1]);
    }
  }

  /**
   * In every run of appends and of rotations that may fail anywhere, the events
   * reported appended are those of the reachable archives and the active
   * segment, in order and multiplicity, as long as no step strands history or
   * removes an archive of its chain.
   */
  lemma {:induction false} FaultyRunConserves(h: Hashing, steps: seq<FaultStep>) returns (ps: seq<Path>)
    requires HarmlessRun(h, steps)
    ensures Conserves(h, RunFaulty(h, steps), ps)
  {
    if steps == [] {
      ps := [];
    } else {
      var front, step := steps[..|steps| - 1], steps[|steps| - 1];
      ps := FaultyRunConserves(h, front);
      TemporaryIsGone(h, front);
      match step
      case Append(e) => AppendKeeps(h, RunFaulty(h, front), e, ps);
      case Rotate(o, f) => ps := FaultyRotationExactly(h, RunFaulty(h, front), o, f, ps);
    }
  }

  /** With collision-free digest prefixes a rotation loses history only by stranding it. */
  lemma CollisionFreeLosesByStrandingOnly(h: Hashing, s: State, o: Options, f: Faults, ps: seq<Path>)
    requires CollisionFree(h) && Conserves(h, s, ps)
    ensures Loses(h, s, o, f, ps) <==> Strands(Active(s), o, f) && (s.log != [] || s.rotations > 0)
  {
    if Active(s) != [] {
      CollisionFreeTargetIsFresh(h, s, o, ps);
    }
  }
}
