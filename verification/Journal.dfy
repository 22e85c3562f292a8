/**
 * The append-only event journal and its content-addressed archive chain
 * (packages/tasq-cli/src/journal.ts).
 *
 * A file system is a map from paths to contents, a content is a sequence of
 * lines, and SHA-256 is an arbitrary total function handed in as a parameter.
 */
module JournalModel {
  import opened Common

  /** `mark` is the twelve-digit digest prefix that goes into an archive name. */
  datatype Path =
    | JournalPath
    | ArchivePath(stamp: int, cursor: int, mark: nat)
    | TemporaryPath
    | OtherPath(name: string)

  /** What resolveSegmentPath makes of the relative path stored in a checkpoint. */
  datatype SegmentPath = Inside(target: Path) | Escaping

  datatype SegmentRef = SegmentRef(path: SegmentPath, sha256: nat, sizeBytes: int)

  datatype Checkpoint = Checkpoint(
    version: int,
    tenantId: string,
    databaseCursor: int,
    databaseEventId: Option<string>,
    previousSegment: Option<SegmentRef>,
    actor: string,
    reason: string,
    createdAt: int)

  datatype Event = Event(id: string, sequence: int)

  /**
   * One line of a segment. A record whose `id` is not a non-empty string has
   * id ""; a record whose `sequence` is not a safe integer has sequence None.
   */
  datatype Line =
    | Blank
    | Malformed
    | CheckpointLine(checkpoint: Checkpoint)
    | EventLine(id: string, sequence: Option<int>)

  type Content = seq<Line>
  type Files = map<Path, Content>

  datatype Hashing = Hashing(sha256: Content -> nat, prefix: nat -> nat, byteLength: Content -> SafeNat)

  datatype Options = Options(
    tenantId: string,
    databaseCursor: int,
    databaseEventId: Option<string>,
    actor: string,
    reason: string,
    now: int)

  // ----- reading a segment

  /** White space and line terminators of ECMAScript. */
  predicate IsWhite(c: char) {
    || c == ' ' || '\t' <= c <= '\r' || c == '\U{A0}' || c == '\U{1680}' || '\U{2000}' <= c <= '\U{200A}'
    || c == '\U{2028}' || c == '\U{2029}' || c == '\U{202F}' || c == '\U{205F}' || c == '\U{3000}' || c == '\U{FEFF}'
  }

  predicate IsBlankText(s: string) {
    forall i :: 0 <= i < |s| ==> IsWhite(s[i])
  }

  function Trim(s: string): (t: string)
    ensures IsBlankText(t) <==> IsBlankText(s)
    ensures t != "" ==> !IsWhite(t[0]) && !IsWhite(t[|t| - 1])
  {
    if s == "" then s
    else if IsWhite(s[0]) then
      var t := Trim(s[1..]);
      assert IsBlankText(s[1..]) ==> IsBlankText(s) by {
        assert forall i :: 1 <= i < |s| ==> s[i] == s[1..][i - 1];
      }
      t
    else if IsWhite(s[|s| - 1]) then
      var t := Trim(s[..|s| - 1]);
      assert s[..|s| - 1][0] == s[0];
      t
    else s
  }

  predicate AllOf(p: char -> bool, s: string) {
    forall i :: 0 <= i < |s| ==> p(s[i])
  }

  /** t is what is left of s when the characters with p are taken off at both ends. */
  ghost predicate Stripped(p: char -> bool, s: string, t: string) {
    && (exists before, after :: AllOf(p, before) && AllOf(p, after) && s == before + t + after)
    && (t != "" ==> !p(t[0]) && !p(t[|t| - 1]))
  }

  /** t is what is left of s without the white space around it. */
  ghost predicate Trimmed(s: string, t: string) {
    Stripped(IsWhite, s, t)
  }

  /** What Trim takes off at both ends is white, and it takes off all of it. */
  lemma {:induction false} TrimExactly(s: string)
    ensures Trimmed(s, Trim(s))
  {
    if s != "" && IsWhite(s[0]) {
      TrimExactly(s[1..]);
      StrippedInFront(IsWhite, s, Trim(s));
    } else if s != "" && IsWhite(s[|s| - 1]) {
      TrimExactly(s[..|s| - 1]);
      StrippedBehind(IsWhite, s, Trim(s));
    } else {
      assert AllOf(IsWhite, "") && s == "" + s + "";
    }
  }

  lemma StrippedInFront(p: char -> bool, s: string, t: string)
    requires s != "" && p(s[0]) && Stripped(p, s[1..], t)
    ensures Stripped(p, s, t)
  {
    var before, after :| AllOf(p, before) && AllOf(p, after) && s[1..] == before + t + after;
    assert AllOf(p, [s[0]] + before) && s == [s[0]] + before + t + after;
  }

  lemma StrippedBehind(p: char -> bool, s: string, t: string)
    requires s != "" && p(s[|s| - 1]) && Stripped(p, s[..|s| - 1], t)
    ensures Stripped(p, s, t)
  {
    var before, after :| AllOf(p, before) && AllOf(p, after) && s[..|s| - 1] == before + t + after;
    assert AllOf(p, after + [s[|s| - 1]]) && s == before + t + (after + [s[|s| - 1]]);
  }

  /** parseJournalCheckpoint on a record that carries the checkpoint type. */
  predicate ValidCheckpoint(c: Checkpoint) {
    && c.version == 1
    && c.tenantId != ""
    && IsSafeNat(c.databaseCursor)
    && c.actor != ""
    && !IsBlankText(c.reason)
    && IsSafeNat(c.createdAt)
    && (c.previousSegment.Some? ==> IsSafeNat(c.previousSegment.value.sizeBytes))
  }

  function ReadContent(files: Files, p: Path): Content {
    if p in files then files[p] else []
  }

  function LeadingCheckpoint(content: Content): Option<Checkpoint> {
    if content == [] then None
    else if content[0].Blank? then LeadingCheckpoint(content[1..])
    else if content[0].CheckpointLine? && ValidCheckpoint(content[0].checkpoint) then Some(content[0].checkpoint)
    else None
  }

  /** Line k holds this checkpoint and only blank lines come before it. */
  predicate Leads(content: Content, k: nat, c: Checkpoint) {
    k < |content| && content[k] == CheckpointLine(c) && forall j :: 0 <= j < k ==> content[j].Blank?
  }

  /**
   * A segment's leading checkpoint is its first line that is not blank, if that
   * is a checkpoint of version 1 with a tenant, an actor, a reason that is not
   * blank and safe integers.
   */
  lemma {:induction false} LeadingExactly(content: Content, c: Checkpoint)
    ensures LeadingCheckpoint(content) == Some(c) <==>
      && (exists k :: Leads(content, k, c))
      && c.version == 1 && c.tenantId != "" && c.actor != ""
      && (exists i :: 0 <= i < |c.reason| && !IsWhite(c.reason[i]))
      && 0 <= c.databaseCursor <= 0x1F_FFFF_FFFF_FFFF && 0 <= c.createdAt <= 0x1F_FFFF_FFFF_FFFF
      && (c.previousSegment.Some? ==> 0 <= c.previousSegment.value.sizeBytes <= 0x1F_FFFF_FFFF_FFFF)
  {
    if content != [] {
      if content[0].Blank? {
        LeadingExactly(content[1..], c);
        if k: nat :| Leads(content[1..], k, c) {
          assert Leads(content, k + 1, c);
        }
        if k: nat :| Leads(content, k, c) {
          assert Leads(content[1..], k - 1, c);
        }
      } else if content[0] == CheckpointLine(c) {
        assert Leads(content, 0, c);
      }
    }
  }

  function PreviousOf(content: Content): Option<SegmentRef> {
    match LeadingCheckpoint(content)
    case None => None
    case Some(c) => c.previousSegment
  }

  function NonBlankLines(content: Content): nat {
    if content == [] then 0 else (if content[0].Blank? then 0 else 1) + NonBlankLines(content[1..])
  }

  /** The events a segment holds, in file order. */
  function EventsOf(content: Content): seq<Event> {
    if content == [] then [] else EventOn(content[0]) + EventsOf(content[1..])
  }

  function EventOn(line: Line): seq<Event> {
    if line.EventLine? && line.sequence.Some? then [Event(line.id, line.sequence.value)] else []
  }

  // ----- appending

  datatype Refusal = MalformedJson | MissingEventId | OtherSequence | SequenceTaken | OutOfOrder

  datatype AppendResult = Appended | AlreadyPresent | CoveredByCheckpoint | Refused(reason: Refusal)

  /** The append scan moves past this line. */
  predicate Passes(line: Line, e: Event) {
    match line
    case Blank => true
    case Malformed => false
    case CheckpointLine(_) => true
    case EventLine(id, sequence) => id != "" && id != e.id && sequence != Some(e.sequence)
  }

  /** How the scan ends at a line it does not pass. */
  function StopAt(line: Line, e: Event): AppendResult
    requires !Passes(line, e)
  {
    if line.Malformed? then Refused(MalformedJson)
    else if line.id == "" then Refused(MissingEventId)
    else if line.id == e.id then
      if line.sequence == Some(e.sequence) then AlreadyPresent else Refused(OtherSequence)
    else Refused(SequenceTaken)
  }

  function FirstObstacle(content: Content, e: Event): (r: Option<Line>)
    ensures r.None? <==> forall i :: 0 <= i < |content| ==> Passes(content[i], e)
    ensures r.Some? ==> r.value in content && !Passes(r.value, e)
  {
    if content == [] then None
    else if !Passes(content[0], e) then Some(content[0])
    else
      assert forall i :: 1 <= i < |content| ==> content[i] == content[1..][i - 1];
      FirstObstacle(content[1..], e)
  }

  predicate AllBelow(content: Content, bound: int) {
    forall i :: 0 <= i < |content| && content[i].EventLine? && content[i].sequence.Some?
      ==> content[i].sequence.value < bound
  }

  function CursorOf(content: Content): int {
    match LeadingCheckpoint(content)
    case None => 0
    case Some(c) => c.databaseCursor
  }

  function OutcomeOf(content: Content, e: Event): AppendResult {
    if LeadingCheckpoint(content).Some? && e.sequence <= CursorOf(content) then CoveredByCheckpoint
    else
      match FirstObstacle(content, e)
      case Some(line) => StopAt(line, e)
      case None =>
        if CursorOf(content) < e.sequence && AllBelow(content, e.sequence) then Appended
        else Refused(OutOfOrder)
  }

  lemma {:induction false} ObstacleFrom(content: Content, e: Event, k: nat)
    requires k <= |content| && forall j :: 0 <= j < k ==> Passes(content[j], e)
    ensures FirstObstacle(content, e) == FirstObstacle(content[k..], e)
  {
    if k > 0 {
      ObstacleFrom(content, e, k - 1);
      assert content[k - 1..][1..] == content[k..];
    }
  }

  /**
   * What the append reports, by the first line that is not clean: malformed,
   * without an id, the event itself, its id under another sequence, its sequence
   * under another id; and without one, by the sequences before it.
   */
  lemma OutcomeExactly(content: Content, e: Event, k: nat)
    requires !(LeadingCheckpoint(content).Some? && e.sequence <= LeadingCheckpoint(content).value.databaseCursor)
    requires k <= |content| && forall j :: 0 <= j < k ==> !content[j].Malformed?
    requires forall j :: 0 <= j < k && content[j].EventLine? ==>
      content[j].id != "" && content[j].id != e.id && content[j].sequence != Some(e.sequence)
    ensures k < |content| && content[k].Malformed? ==> OutcomeOf(content, e) == Refused(MalformedJson)
    ensures k < |content| && content[k].EventLine? && content[k].id == "" ==>
      OutcomeOf(content, e) == Refused(MissingEventId)
    ensures k < |content| && content[k].EventLine? && content[k].id == e.id != "" ==>
      var same := content[k].sequence == Some(e.sequence);
      OutcomeOf(content, e) == if same then AlreadyPresent else Refused(OtherSequence)
    ensures (k < |content| && content[k].EventLine? && content[k].id != ""
             && content[k].id != e.id && content[k].sequence == Some(e.sequence)) ==>
      OutcomeOf(content, e) == Refused(SequenceTaken)
    ensures k == |content| ==>
      var inOrder := (LeadingCheckpoint(content).None? ==> 0 < e.sequence)
        && forall j :: 0 <= j < k && content[j].EventLine? && content[j].sequence.Some? ==>
             content[j].sequence.value < e.sequence;
      OutcomeOf(content, e) == if inOrder then Appended else Refused(OutOfOrder)
  {
    ObstacleFrom(content, e, k);
  }

  /** And an event at or below the cursor of the leading checkpoint is covered, whatever the lines. */
  lemma CoveredExactly(content: Content, e: Event)
    ensures OutcomeOf(content, e) == CoveredByCheckpoint <==>
      LeadingCheckpoint(content).Some? && e.sequence <= LeadingCheckpoint(content).value.databaseCursor
  {
  }

  function LineOf(e: Event): Line {
    EventLine(e.id, Some(e.sequence))
  }

  function AfterAppend(files: Files, e: Event): Files {
    var content := ReadContent(files, JournalPath);
    if OutcomeOf(content, e).Appended? then files[JournalPath := content + [LineOf(e)]] else files
  }

  // ----- rotating

  function ArchiveTarget(h: Hashing, content: Content, o: Options): Path {
    ArchivePath(o.now, o.databaseCursor, h.prefix(h.sha256(content)))
  }

  function RefFor(h: Hashing, content: Content, o: Options): SegmentRef {
    SegmentRef(Inside(ArchiveTarget(h, content, o)), h.sha256(content), h.byteLength(content))
  }

  function NewCheckpoint(h: Hashing, content: Content, o: Options): Checkpoint {
    Checkpoint(1, o.tenantId, o.databaseCursor, o.databaseEventId,
               if content != [] then Some(RefFor(h, content, o)) else None,
               o.actor, Trim(o.reason), o.now)
  }

  /** The checkpoint records exactly what the options say, with the reason trimmed. */
  ghost predicate Says(c: Checkpoint, o: Options) {
    && c.version == 1 && c.tenantId == o.tenantId && c.actor == o.actor && c.createdAt == o.now
    && c.databaseCursor == o.databaseCursor && c.databaseEventId == o.databaseEventId
    && Trimmed(o.reason, c.reason)
  }

  lemma NewCheckpointSays(h: Hashing, content: Content, o: Options)
    ensures Says(NewCheckpoint(h, content, o), o)
  {
    TrimExactly(o.reason);
  }

  /** The journal already is just this checkpoint, so nothing is rotated. */
  predicate Reuses(content: Content, o: Options) {
    var existing := LeadingCheckpoint(content);
    && existing.Some?
    && existing.value.tenantId == o.tenantId
    && existing.value.databaseCursor == o.databaseCursor
    && existing.value.databaseEventId == o.databaseEventId
    && NonBlankLines(content) == 1
  }

  function AfterRotation(h: Hashing, files: Files, o: Options): Files {
    var content := ReadContent(files, JournalPath);
    var archived := if content != [] then files[ArchiveTarget(h, content, o) := content] else files;
    archived[JournalPath := [CheckpointLine(NewCheckpoint(h, content, o))]]
  }

  function AfterCheckpoint(h: Hashing, files: Files, o: Options): Files {
    if Reuses(ReadContent(files, JournalPath), o) then files else AfterRotation(h, files, o)
  }

  /** Which calls of the rename block and of its rollback throw. */
  datatype Faults = Faults(
    prepareArchive: bool, moveAway: bool, install: bool, protect: bool,
    unlinkTemporary: bool, moveBack: bool)

  /** The double fault after which the old segment is no longer at its path. */
  predicate Strands(content: Content, o: Options, f: Faults) {
    && content != [] && !Reuses(content, o)
    && !f.prepareArchive && !f.moveAway && f.install
    && (f.unlinkTemporary || f.moveBack)
  }

  /** Reusing a checkpoint resolves its archive path, which throws when that path escapes. */
  predicate ReuseThrows(content: Content) {
    PreviousOf(content).Some? && PreviousOf(content).value.path.Escaping?
  }

  /** The call returns: nothing it depends on threw. */
  predicate Succeeds(content: Content, o: Options, f: Faults) {
    if Reuses(content, o) then !ReuseThrows(content)
    else !f.install && !f.protect && (content != [] ==> !f.prepareArchive && !f.moveAway)
  }

  /** The files after the old segment was moved into the archive, before the checkpoint is installed. */
  function AfterMove(h: Hashing, files: Files, o: Options): Files {
    var content := ReadContent(files, JournalPath);
    var staged := files[TemporaryPath := [CheckpointLine(NewCheckpoint(h, content, o))]];
    if content == [] then staged else (staged - {JournalPath})[ArchiveTarget(h, content, o) := content]
  }

  /** The files the call leaves behind, whichever of its calls throw. */
  function AfterFaults(h: Hashing, files: Files, o: Options, f: Faults): Files {
    var content := ReadContent(files, JournalPath);
    if Reuses(content, o) then files
    else if content != [] && (f.prepareArchive || f.moveAway) then
      if f.unlinkTemporary then files[TemporaryPath := [CheckpointLine(NewCheckpoint(h, content, o))]]
      else files - {TemporaryPath}
    else if f.install then
      var moved := AfterMove(h, files, o);
      if f.unlinkTemporary then moved
      else if content == [] || f.moveBack then moved - {TemporaryPath}
      else (moved - {TemporaryPath} - {ArchiveTarget(h, content, o)})[JournalPath := content]
    else AfterRotation(h, files, o)
  }

  /** The old segment is at its path, or the rotation is complete. */
  predicate Atomic(h: Hashing, files: Files, o: Options, files': Files) {
    ReadContent(files', JournalPath) == ReadContent(files, JournalPath) || files' == AfterRotation(h, files, o)
  }

  /**
   * Whatever throws, the call is failure-atomic exactly when the faults do not
   * strand the segment, and then too the old content is in the archive; no file
   * besides the journal, its archive and the temporary file is touched, and a
   * call that returns has done what it reports.
   */
  lemma FailureAtomicExactly(h: Hashing, files: Files, o: Options, f: Faults)
    requires TemporaryPath !in files
    ensures var content := ReadContent(files, JournalPath);
      var files' := AfterFaults(h, files, o, f);
      var target := ArchiveTarget(h, content, o);
      && (Atomic(h, files, o, files') <==> !Strands(content, o, f))
      && (Strands(content, o, f) ==>
            !Succeeds(content, o, f) && JournalPath !in files' && target in files' && files'[target] == content)
      && (Succeeds(content, o, f) ==> files' == AfterCheckpoint(h, files, o))
      && (forall p :: p != JournalPath && p != TemporaryPath && p != target ==>
            (p in files' <==> p in files) && (p in files ==> files'[p] == files[p]))
  {
    if Strands(ReadContent(files, JournalPath), o, f) {
      StrandedExactly(h, files, o, f);
    } else {
      AtomicUnlessStranded(h, files, o, f);
    }
    forall p | p != JournalPath && p != TemporaryPath && p != ArchiveTarget(h, ReadContent(files, JournalPath), o)
      ensures (p in AfterFaults(h, files, o, f) <==> p in files)
      ensures p in files ==> AfterFaults(h, files, o, f)[p] == files[p]
    {
      OtherFilesUntouched(h, files, o, f, p);
    }
  }

  lemma StrandedExactly(h: Hashing, files: Files, o: Options, f: Faults)
    requires Strands(ReadContent(files, JournalPath), o, f)
    ensures var content := ReadContent(files, JournalPath);
      var files' := AfterFaults(h, files, o, f);
      var target := ArchiveTarget(h, content, o);
      && !Succeeds(content, o, f) && !Atomic(h, files, o, files')
      && JournalPath !in files' && target in files' && files'[target] == content
  {
  }

  lemma AtomicUnlessStranded(h: Hashing, files: Files, o: Options, f: Faults)
    requires TemporaryPath !in files && !Strands(ReadContent(files, JournalPath), o, f)
    ensures Atomic(h, files, o, AfterFaults(h, files, o, f))
    ensures Succeeds(ReadContent(files, JournalPath), o, f) ==>
      AfterFaults(h, files, o, f) == AfterCheckpoint(h, files, o)
  {
  }

  lemma OtherFilesUntouched(h: Hashing, files: Files, o: Options, f: Faults, p: Path)
    requires p != JournalPath && p != TemporaryPath && p != ArchiveTarget(h, ReadContent(files, JournalPath), o)
    ensures p in AfterFaults(h, files, o, f) <==> p in files
    ensures p in files ==> AfterFaults(h, files, o, f)[p] == files[p]
  {
  }

  /** One event, and faults at the install and at the move back: the journal is gone from its path. */
  lemma DoubleFaultStrands(h: Hashing, o: Options)
    ensures var content := [LineOf(Event("a", 1))];
      var files := map[JournalPath := content];
      var f := Faults(false, false, true, false, false, true);
      !Succeeds(content, o, f) && AfterFaults(h, files, o, f) == map[ArchiveTarget(h, content, o) := content]
  {
    var content := [LineOf(Event("a", 1))];
    var files := map[JournalPath := content];
    var moved := AfterMove(h, files, o);
    assert moved - {TemporaryPath} == map[ArchiveTarget(h, content, o) := content];
  }

  datatype CheckpointResult =
    | Done(checkpoint: Checkpoint, archivePath: Option<SegmentPath>, reused: bool)
    | Failed

  // ----- the archive chain

  predicate Matches(h: Hashing, content: Content, ref: SegmentRef) {
    h.byteLength(content) == ref.sizeBytes && h.sha256(content) == ref.sha256
  }

  /** `ps` lists every archive reachable from `previous`, newest first, each intact. */
  ghost predicate Chain(h: Hashing, files: Files, previous: Option<SegmentRef>, ps: seq<Path>)
    decreases |ps|
  {
    match previous
    case None => ps == []
    case Some(ref) =>
      && ps != []
      && ref.path == Inside(ps[0])
      && ps[0] in files
      && Matches(h, files[ps[0]], ref)
      && Chain(h, files, PreviousOf(files[ps[0]]), ps[1..])
  }

  /** Some complete, intact predecessor chain starts at `previous`. */
  ghost predicate Intact(h: Hashing, files: Files, previous: Option<SegmentRef>) {
    exists ps :: Chain(h, files, previous, ps)
  }

  lemma {:induction false} ChainUnique(
    h: Hashing, files: Files, previous: Option<SegmentRef>, ps: seq<Path>, qs: seq<Path>)
    requires Chain(h, files, previous, ps) && Chain(h, files, previous, qs)
    ensures ps == qs
    decreases |ps|
  {
    if previous.Some? {
      ChainUnique(h, files, PreviousOf(files[ps[0]]), ps[1..], qs[1..]);
      assert ps == [ps[0]] + ps[1..] && qs == [qs[0]] + qs[1..];
    }
  }

  lemma {:induction false} ChainSuffix(
    h: Hashing, files: Files, previous: Option<SegmentRef>, ps: seq<Path>, i: nat)
    requires Chain(h, files, previous, ps) && i < |ps|
    ensures ps[i] in files && Chain(h, files, PreviousOf(files[ps[i]]), ps[i + 1..])
    decreases i
  {
    if i > 0 {
      ChainSuffix(h, files, PreviousOf(files[ps[0]]), ps[1..], i - 1);
      assert ps[1..][i..] == ps[i + 1..];
    }
  }

  /** No intact chain visits a path twice: a cycle would have two lengths. */
  lemma ChainDistinct(h: Hashing, files: Files, previous: Option<SegmentRef>, ps: seq<Path>)
    requires Chain(h, files, previous, ps)
    ensures Distinct(ps)
  {
    forall i, j | 0 <= i < j < |ps| ensures ps[i] != ps[j] {
      if ps[i] == ps[j] {
        ChainSuffix(h, files, previous, ps, i);
        ChainSuffix(h, files, previous, ps, j);
        ChainUnique(h, files, PreviousOf(files[ps[i]]), ps[i + 1..], ps[j + 1..]);
      }
    }
  }

  /**
   * An archive that is gone, or has another digest or another size than it had,
   * breaks the chain, whatever else was changed behind it.
   */
  lemma {:induction false} TamperingIsDetected(
    h: Hashing, files: Files, files': Files, previous: Option<SegmentRef>, ps: seq<Path>, k: nat)
    requires Chain(h, files, previous, ps) && k < |ps| && ps[k] in files
    requires forall j :: 0 <= j < k ==> ps[j] in files && ps[j] in files' && files'[ps[j]] == files[ps[j]]
    requires ps[k] in files' ==>
      || h.sha256(files'[ps[k]]) != h.sha256(files[ps[k]])
      || h.byteLength(files'[ps[k]]) != h.byteLength(files[ps[k]])
    ensures !Intact(h, files', previous)
    decreases k
  {
    forall qs | Chain(h, files', previous, qs) ensures false {
      if k > 0 {
        assert Chain(h, files', PreviousOf(files[ps[0]]), qs[1..]);
        assert ps[1..][k - 1] == ps[k] && forall j :: 0 <= j < k - 1 ==> ps[1..][j] == ps[j + 1];
        TamperingIsDetected(h, files, files', PreviousOf(files[ps[0]]), ps[1..], k - 1);
      }
    }
  }

  /** Following references from `start` through the intact files `walked` leads to `cursor`. */
  ghost predicate Walk(
    h: Hashing, files: Files, start: Option<SegmentRef>, walked: seq<Path>, cursor: Option<SegmentRef>)
    decreases |walked|
  {
    if walked == [] then start == cursor
    else
      && start.Some?
      && start.value.path == Inside(walked[0])
      && walked[0] in files
      && Matches(h, files[walked[0]], start.value)
      && Walk(h, files, PreviousOf(files[walked[0]]), walked[1..], cursor)
  }

  lemma {:induction false} WalkOne(
    h: Hashing, files: Files, start: Option<SegmentRef>, walked: seq<Path>, ref: SegmentRef, p: Path)
    requires Walk(h, files, start, walked, Some(ref))
    requires ref.path == Inside(p) && p in files && Matches(h, files[p], ref)
    ensures Walk(h, files, start, walked + [p], PreviousOf(files[p]))
    decreases |walked|
  {
    if walked == [] {
      assert (walked + [p])[1..] == [];
    } else {
      WalkOne(h, files, PreviousOf(files[walked[0]]), walked[1..], ref, p);
      assert (walked + [p])[1..] == walked[1..] + [p];
    }
  }

  /** The chains from `start` are exactly `walked` followed by the chains from `cursor`. */
  lemma {:induction false} WalkThenChain(
    h: Hashing, files: Files, start: Option<SegmentRef>, walked: seq<Path>, cursor: Option<SegmentRef>,
    ps: seq<Path>)
    requires Walk(h, files, start, walked, cursor)
    ensures Chain(h, files, start, ps) <==> walked <= ps && Chain(h, files, cursor, ps[|walked|..])
    decreases |walked|
  {
    if walked == [] {
      assert ps[0..] == ps;
    } else if ps != [] {
      WalkThenChain(h, files, PreviousOf(files[walked[0]]), walked[1..], cursor, ps[1..]);
      assert walked == [walked[0]] + walked[1..] && ps == [ps[0]] + ps[1..];
      assert |walked| <= |ps| ==> ps[1..][|walked| - 1..] == ps[|walked|..];
    }
  }

  /** Nothing intact starts at a reference the walk cannot follow to a new, matching file. */
  lemma WalkStops(h: Hashing, files: Files, start: Option<SegmentRef>, walked: seq<Path>, ref: SegmentRef)
    requires Walk(h, files, start, walked, Some(ref))
    requires ref.path.Inside? && ref.path.target !in walked && ref.path.target in files ==>
      !Matches(h, files[ref.path.target], ref)
    ensures !Intact(h, files, start)
  {
    forall ps | Chain(h, files, start, ps) ensures false {
      WalkThenChain(h, files, start, walked, Some(ref), ps);
      assert ps[|walked|] == ps[|walked|..][0];
      ChainDistinct(h, files, start, ps);
    }
  }

  datatype Issue = EscapesDirectory | CycleAt(p: Path) | MissingArchive(p: Path) | DigestMismatch(p: Path)

  datatype ChainVerification = ChainVerification(ok: bool, segments: nat, issues: seq<Issue>)

  class Journal {
    const hash: Hashing
    var files: Files

    constructor (hash: Hashing, files: Files)
      ensures this.hash == hash && this.files == files
    {
      this.hash := hash;
      this.files := files;
    }

    method AppendJournalEvent(e: Event) returns (r: AppendResult)
      modifies this`files
      ensures r == OutcomeOf(old(ReadContent(files, JournalPath)), e)
      ensures files == AfterAppend(old(files), e)
    {
      var content := ReadContent(files, JournalPath);
      var checkpoint := LeadingCheckpoint(content);
      if checkpoint.Some? && e.sequence <= checkpoint.value.databaseCursor {
        return CoveredByCheckpoint;
      }
      var maxSequence := if checkpoint.Some? then checkpoint.value.databaseCursor else 0;
      for i := 0 to |content|
        invariant CursorOf(content) <= maxSequence
        invariant FirstObstacle(content, e) == FirstObstacle(content[i..], e)
        invariant maxSequence < e.sequence <==>
          CursorOf(content) < e.sequence && AllBelow(content[..i], e.sequence)
      {
        assert content[i..][1..] == content[i + 1..];
        assert content[..i + 1] == content[..i] + [content[i]];
        var line := content[i];
        if !Passes(line, e) {
          return StopAt(line, e);
        }
        if line.EventLine? && line.sequence.Some? && maxSequence < line.sequence.value {
          maxSequence := line.sequence.value;
        }
      }
      assert content[..|content|] == content;
      if e.sequence <= maxSequence {
        return Refused(OutOfOrder);
      }
      files := files[JournalPath := content + [LineOf(e)]];
      return Appended;
    }

    /** Succeeds exactly when nothing it depends on throws; otherwise the rollback leaves AfterFaults. */
    method CheckpointJournal(o: Options, f: Faults) returns (r: CheckpointResult)
      requires TemporaryPath !in files
      modifies this`files
      ensures files == AfterFaults(hash, old(files), o, f)
      ensures r.Done? <==> Succeeds(old(ReadContent(files, JournalPath)), o, f)
      ensures r.Done? ==>
        var content := old(ReadContent(files, JournalPath));
        && (r.reused <==> Reuses(content, o))
        && (if r.reused then LeadingCheckpoint(content) == Some(r.checkpoint)
            else Says(r.checkpoint, o) && ReadContent(files, JournalPath) == [CheckpointLine(r.checkpoint)])
        && r.archivePath ==
           if r.checkpoint.previousSegment.Some? then Some(r.checkpoint.previousSegment.value.path) else None
    {
      var content := ReadContent(files, JournalPath);
      var existing := LeadingCheckpoint(content);
      if Reuses(content, o) {
        var previous := existing.value.previousSegment;
        if previous.Some? && previous.value.path.Escaping? { return Failed; }
        return Done(existing.value, if previous.Some? then Some(previous.value.path) else None, true);
      }
      var checkpoint := NewCheckpoint(hash, content, o);
      NewCheckpointSays(hash, content, o);
      var target := ArchiveTarget(hash, content, o);
      files := files[TemporaryPath := [CheckpointLine(checkpoint)]];

      var archived := false;
      var proceeding := true;
      if content != [] {
        proceeding := !f.prepareArchive && !f.moveAway;
        if proceeding {
          files := (files - {JournalPath})[target := content];
          archived := true;
        }
      }
      assert proceeding ==> files == AfterMove(hash, old(files), o);
      if proceeding {
        proceeding := !f.install;
        if proceeding {
          files := (files - {TemporaryPath})[JournalPath := [CheckpointLine(checkpoint)]];
          assert files == AfterRotation(hash, old(files), o);
          proceeding := !f.protect;
        }
      }
      if !proceeding {
        if TemporaryPath in files {
          if f.unlinkTemporary { return Failed; }
          files := files - {TemporaryPath};
        }
        if archived && JournalPath !in files {
          if f.moveBack { return Failed; }
          files := (files - {target})[JournalPath := content];
        }
        return Failed;
      }
      return Done(checkpoint,
                  if checkpoint.previousSegment.Some?
                  then Some(checkpoint.previousSegment.value.path) else None, false);
    }

    /**
     * The verifier terminates on every file map, accepts exactly the maps with
     * an intact predecessor chain, and counts that chain.
     */
    method VerifyArchiveChain(checkpoint: Checkpoint) returns (v: ChainVerification)
      ensures v.ok <==> v.issues == []
      ensures v.ok <==> Intact(hash, files, checkpoint.previousSegment)
      ensures forall ps :: Chain(hash, files, checkpoint.previousSegment, ps) ==> v.segments == |ps|
    {
      var start := checkpoint.previousSegment;
      var cursor := start;
      var seen: set<Path> := {};
      var segments := 0;
      ghost var walked: seq<Path> := [];
      while cursor.Some?
        invariant seen == (set p | p in walked) && seen <= files.Keys
        invariant segments == |walked|
        invariant Walk(hash, files, start, walked, cursor)
        decreases files.Keys - seen
      {
        var ref := cursor.value;
        if ref.path.Escaping? {
          WalkStops(hash, files, start, walked, ref);
          return ChainVerification(false, segments, [EscapesDirectory]);
        }
        var archive := ref.path.target;
        if archive in seen {
          WalkStops(hash, files, start, walked, ref);
          return ChainVerification(false, segments, [CycleAt(archive)]);
        }
        seen := seen + {archive};
        if archive !in files {
          WalkStops(hash, files, start, walked, ref);
          return ChainVerification(false, segments, [MissingArchive(archive)]);
        }
        if !Matches(hash, files[archive], ref) {
          WalkStops(hash, files, start, walked, ref);
          return ChainVerification(false, segments, [DigestMismatch(archive)]);
        }
        segments := segments + 1;
        WalkOne(hash, files, start, walked, ref, archive);
        walked := walked + [archive];
        cursor := PreviousOf(files[archive]);
      }
      assert walked[|walked|..] == [];
      WalkThenChain(hash, files, start, walked, cursor, walked);
      forall ps | Chain(hash, files, start, ps) ensures segments == |ps| {
        ChainUnique(hash, files, start, ps, walked);
      }
      return ChainVerification(true, segments, []);
    }
  }
}
