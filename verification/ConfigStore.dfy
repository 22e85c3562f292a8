/**
 * The shared config file: stale copies merged on save, a change journal, and
 * nearest-ancestor space resolution (packages/tasq-cli/src/config.ts:308-560).
 *
 * Sorted name lists are sets; `undefined` directory maps are empty maps.
 */
module ConfigStore {
  import opened Common

  type Bindings = map<string, string>

  /** `fields` are the scalar keys of CONFIG_KEYS that are set. */
  datatype Config = Config(fields: map<string, string>, spaces: Bindings, projections: Bindings)

  datatype Diff = Diff(added: set<string>, removed: set<string>, changed: set<string>)

  datatype Change = Change(scalars: set<string>, spaces: Diff, projections: Diff, preserved: set<string>)

  // ----- merging and diffing

  /** The caller's entries win; the file's other entries survive unless named. */
  function Merged(inMemory: Bindings, onDisk: Bindings, removed: set<string>): Bindings {
    map d | d in inMemory.Keys + (onDisk.Keys - removed) :: if d in inMemory then inMemory[d] else onDisk[d]
  }

  /** The map holds exactly the copy's entries and, besides, the file's that are neither in the copy nor removed. */
  ghost predicate IsMerge(merged: Bindings, copy: Bindings, onDisk: Bindings, removed: set<string>) {
    && (forall d :: d in merged <==> d in copy || (d in onDisk && d !in removed))
    && (forall d :: d in copy ==> d in merged && merged[d] == copy[d])
    && (forall d :: d in merged && d !in copy ==> merged[d] == onDisk[d])
  }

  lemma MergedExactly(copy: Bindings, onDisk: Bindings, removed: set<string>)
    ensures IsMerge(Merged(copy, onDisk, removed), copy, onDisk, removed)
  {
  }

  method MergeDirectoryMap(inMemory: Bindings, onDisk: Bindings, removed: set<string>)
    returns (merged: Bindings, preserved: set<string>)
    ensures merged == Merged(inMemory, onDisk, removed) && IsMerge(merged, inMemory, onDisk, removed)
    ensures preserved == onDisk.Keys - removed - inMemory.Keys
  {
    merged, preserved := inMemory, {};
    var left := onDisk.Keys;
    while left != {}
      invariant left <= onDisk.Keys
      invariant preserved == onDisk.Keys - left - removed - inMemory.Keys
      invariant merged == Merged(inMemory, map d | d in onDisk && d !in left :: onDisk[d], removed)
      decreases left
    {
      var d :| d in left;
      left := left - {d};
      if d !in merged && d !in removed {
        merged := merged[d := onDisk[d]];
        preserved := preserved + {d};
      }
    }
    assert onDisk == map d | d in onDisk && d !in left :: onDisk[d];
    MergedExactly(inMemory, onDisk, removed);
  }

  function BindingDiff(before: Bindings, after: Bindings): Diff {
    Diff(after.Keys - before.Keys,
         before.Keys - after.Keys,
         set d | d in after && d in before && before[d] != after[d])
  }

  lemma NoDiffMeansEqual(before: Bindings, after: Bindings)
    ensures BindingDiff(before, after) == Diff({}, {}, {}) <==> before == after
  {
    if BindingDiff(before, after) == Diff({}, {}, {}) {
      assert before.Keys == after.Keys;
      forall d | d in after ensures before[d] == after[d] {
        assert d !in BindingDiff(before, after).changed;
      }
    }
  }

  // ----- saving

  function SpacesOf(disk: Option<Config>): Bindings {
    if disk.Some? then disk.value.spaces else map[]
  }

  function ProjectionsOf(disk: Option<Config>): Bindings {
    if disk.Some? then disk.value.projections else map[]
  }

  function ScalarChanges(disk: Option<Config>, next: Config): set<string> {
    var before := if disk.Some? then disk.value.fields else map[];
    set k | k in before.Keys + next.fields.Keys
      && !(k in before && k in next.fields && before[k] == next.fields[k])
  }

  /**
   * One save: the caller's possibly stale copy, the directories it deliberately
   * removes, and whether the append to the change journal and the chmod after it
   * work.
   */
  datatype Save = Save(
    copy: Config, unbind: set<string>, unproject: set<string>, appendWorks: bool, protectWorks: bool)

  function Next(disk: Option<Config>, s: Save): Config {
    Config(s.copy.fields,
           Merged(s.copy.spaces, SpacesOf(disk), s.unbind),
           Merged(s.copy.projections, ProjectionsOf(disk), s.unproject + s.unbind))
  }

  datatype Store = Store(disk: Option<Config>, journal: seq<Change>)

  function ChangeOf(disk: Option<Config>, s: Save): Change {
    var next := Next(disk, s);
    Change(ScalarChanges(disk, next),
           BindingDiff(SpacesOf(disk), next.spaces),
           BindingDiff(ProjectionsOf(disk), next.projections),
           SpacesOf(disk).Keys - s.unbind - s.copy.spaces.Keys)
  }

  predicate Changes(disk: Option<Config>, s: Save) {
    var c := ChangeOf(disk, s);
    disk.None? || c.scalars != {} || c.spaces != Diff({}, {}, {}) || c.projections != Diff({}, {}, {})
  }

  function AfterSave(st: Store, s: Save): Store {
    if !Changes(st.disk, s) then st
    else Store(Some(Next(st.disk, s)), st.journal + (if s.appendWorks then [ChangeOf(st.disk, s)] else []))
  }

  class ConfigFile {
    var disk: Option<Config>
    var journal: seq<Change>

    constructor ()
      ensures disk == None && journal == []
    {
      disk, journal := None, [];
    }

    method SaveConfig(s: Save) returns (changed: bool, preserved: set<string>, journaled: bool)
      modifies this
      ensures Store(disk, journal) == AfterSave(old(Store(disk, journal)), s)
      ensures changed <==> Changes(old(disk), s)
      ensures preserved == SpacesOf(old(disk)).Keys - s.unbind - s.copy.spaces.Keys
      ensures journaled <==> changed && s.appendWorks && s.protectWorks
      ensures journaled ==> journal == old(journal) + [ChangeOf(old(disk), s)]
      ensures disk.Some? && disk.value.fields == s.copy.fields
      ensures IsMerge(disk.value.spaces, s.copy.spaces, SpacesOf(old(disk)), s.unbind)
      ensures IsMerge(disk.value.projections, s.copy.projections, ProjectionsOf(old(disk)), s.unproject + s.unbind)
    {
      SaveAlwaysInstalls(Store(disk, journal), s);
      MergedExactly(s.copy.spaces, SpacesOf(disk), s.unbind);
      MergedExactly(s.copy.projections, ProjectionsOf(disk), s.unproject + s.unbind);
      var spaces, kept := MergeDirectoryMap(s.copy.spaces, SpacesOf(disk), s.unbind);
      var projections, _ := MergeDirectoryMap(s.copy.projections, ProjectionsOf(disk), s.unproject + s.unbind);
      preserved := kept;
      var next := Config(s.copy.fields, spaces, projections);
      var change := Change(ScalarChanges(disk, next), BindingDiff(SpacesOf(disk), spaces),
                           BindingDiff(ProjectionsOf(disk), projections), kept);
      changed := disk.None? || change.scalars != {}
                 || change.spaces != Diff({}, {}, {}) || change.projections != Diff({}, {}, {});
      if !changed {
        NoDiffMeansEqual(SpacesOf(disk), spaces);
        return false, preserved, false;
      }
      disk := Some(next);
      if s.appendWorks {
        journal := journal + [change];
      }
      journaled := s.appendWorks && s.protectWorks;
    }
  }

  /** The record of a save lists what differs between the file before and after it, and what it preserved. */
  lemma ChangeSaysWhatDiffers(disk: Option<Config>, s: Save, k: string)
    ensures var c, after := ChangeOf(disk, s), Next(disk, s);
      var fields := if disk.Some? then disk.value.fields else map[];
      var before := if disk.Some? then disk.value.spaces else map[];
      && (k in c.scalars <==>
            && (k in fields || k in s.copy.fields)
            && !(k in fields && k in s.copy.fields && fields[k] == s.copy.fields[k]))
      && (k in c.spaces.added <==> k !in before && k in after.spaces)
      && (k in c.spaces.removed <==> k in before && k !in after.spaces)
      && (k in c.spaces.changed <==> k in before && k in after.spaces && before[k] != after.spaces[k])
      && (k in c.preserved <==> k in before && k !in s.unbind && k !in s.copy.spaces)
  {
  }

  /** Skipping the write when nothing changed never loses anything: the file holds the merge either way. */
  lemma SaveAlwaysInstalls(st: Store, s: Save)
    ensures AfterSave(st, s).disk == Some(Next(st.disk, s))
  {
    if !Changes(st.disk, s) {
      var next, before := Next(st.disk, s), st.disk.value;
      NoDiffMeansEqual(before.spaces, next.spaces);
      NoDiffMeansEqual(before.projections, next.projections);
      assert forall k :: k in before.fields.Keys + next.fields.Keys ==> k !in ScalarChanges(st.disk, next);
      assert before.fields.Keys == next.fields.Keys;
      assert before.fields == next.fields;
    }
  }

  // ----- what survives any interleaving of stale savers

  function SaveAll(st: Store, saves: seq<Save>): Store {
    if saves == [] then st else AfterSave(SaveAll(st, saves[..|saves| - 1]), saves[|saves| - 1])
  }

  function Bound(st: Store): set<string> {
    SpacesOf(st.disk).Keys
  }

  /** Whether or not the file is rewritten, the bound directories are the merged ones. */
  lemma BoundAfterSave(st: Store, s: Save)
    ensures Bound(AfterSave(st, s)) == s.copy.spaces.Keys + (Bound(st) - s.unbind)
  {
    if !Changes(st.disk, s) {
      NoDiffMeansEqual(SpacesOf(st.disk), Next(st.disk, s).spaces);
    }
  }

  /** One save unbinds a directory exactly when it names it and its own copy no longer has it. */
  lemma UnboundExactly(st: Store, s: Save, d: string)
    requires d in Bound(st)
    ensures d !in Bound(AfterSave(st, s)) <==> d in s.unbind && d !in s.copy.spaces
  {
    BoundAfterSave(st, s);
  }

  /** Whatever copies the savers hold, a bound directory stays bound until a save names it. */
  lemma {:induction false} BindingsSurvive(st: Store, saves: seq<Save>, d: string)
    requires d in Bound(st) && forall i :: 0 <= i < |saves| ==> d !in saves[i].unbind
    ensures d in Bound(SaveAll(st, saves))
  {
    if saves != [] {
      BindingsSurvive(st, saves[..|saves| - 1], d);
      UnboundExactly(SaveAll(st, saves[..|saves| - 1]), saves[|saves| - 1], d);
    }
  }

  /** Replay the added and removed lists of a journal. */
  function Fold(start: set<string>, journal: seq<Change>): set<string> {
    if journal == [] then start
    else
      var c := journal[|journal| - 1];
      Fold(start, journal[..|journal| - 1]) - c.spaces.removed + c.spaces.added
  }

  /** The save's record reached the journal, or it bound and unbound nothing. */
  predicate Recorded(st: Store, s: Save) {
    s.appendWorks ||
    var diff := BindingDiff(SpacesOf(st.disk), Next(st.disk, s).spaces);
    diff.added == {} && diff.removed == {}
  }

  /** The journal so far folds to the bound directories. */
  predicate FoldsRight(start: set<string>, st: Store) {
    Fold(start, st.journal) == Bound(st)
  }

  /**
   * saveConfig goes on when its journal record cannot be appended: one save
   * keeps the fold right if and only if its record was appended or it bound and
   * unbound nothing.
   */
  lemma OneSaveFoldsExactly(start: set<string>, st: Store, s: Save)
    requires FoldsRight(start, st)
    ensures FoldsRight(start, AfterSave(st, s)) <==> Recorded(st, s)
  {
    NoDiffMeansEqual(SpacesOf(st.disk), Next(st.disk, s).spaces);
    if Changes(st.disk, s) {
      ChangedSaveFolds(start, st, s);
    }
  }

  lemma ChangedSaveFolds(start: set<string>, st: Store, s: Save)
    requires FoldsRight(start, st) && Changes(st.disk, s)
    ensures FoldsRight(start, AfterSave(st, s)) <==> Recorded(st, s)
  {
    var next := AfterSave(st, s);
    var before, after := SpacesOf(st.disk).Keys, SpacesOf(next.disk).Keys;
    var diff := BindingDiff(SpacesOf(st.disk), Next(st.disk, s).spaces);
    assert diff.added == after - before && diff.removed == before - after;
    if s.appendWorks {
      assert next.journal[..|next.journal| - 1] == st.journal;
      assert before - diff.removed + diff.added == after;
    } else {
      assert next.journal == st.journal;
      assert after == before <==> diff.added == {} && diff.removed == {};
    }
  }

  ghost predicate FoldsAt(st: Store, saves: seq<Save>, n: nat)
    requires n <= |saves|
  {
    FoldsRight(Bound(st), SaveAll(st, saves[..n]))
  }

  ghost predicate RecordedAt(st: Store, saves: seq<Save>, i: nat)
    requires i < |saves|
  {
    Recorded(SaveAll(st, saves[..i]), saves[i])
  }

  lemma OneMoreSave(st: Store, saves: seq<Save>, n: nat)
    requires n < |saves| && FoldsAt(st, saves, n)
    ensures FoldsAt(st, saves, n + 1) <==> RecordedAt(st, saves, n)
  {
    assert saves[..n + 1][..n] == saves[..n];
    OneSaveFoldsExactly(Bound(st), SaveAll(st, saves[..n]), saves[n]);
  }

  lemma {:induction false} RecordedRunsFold(st: Store, saves: seq<Save>, n: nat)
    requires st.journal == [] && n <= |saves| && forall i :: 0 <= i < n ==> RecordedAt(st, saves, i)
    ensures FoldsAt(st, saves, n)
  {
    if n > 0 {
      RecordedRunsFold(st, saves, n - 1);
      OneMoreSave(st, saves, n - 1);
    }
  }

  /**
   * Over any sequence of saves, folding the journal reproduces the bound
   * directories at every moment if and only if each save's record was appended
   * or the save bound and unbound nothing.
   */
  lemma JournalReproducesBindings(st: Store, saves: seq<Save>)
    requires st.journal == []
    ensures (forall n :: 0 <= n <= |saves| ==> FoldsAt(st, saves, n)) <==>
      forall i :: 0 <= i < |saves| ==> RecordedAt(st, saves, i)
  {
    if forall i :: 0 <= i < |saves| ==> RecordedAt(st, saves, i) {
      forall n | 0 <= n <= |saves| ensures FoldsAt(st, saves, n) {
        RecordedRunsFold(st, saves, n);
      }
    } else if forall n :: 0 <= n <= |saves| ==> FoldsAt(st, saves, n) {
      forall i | 0 <= i < |saves| ensures RecordedAt(st, saves, i) {
        assert FoldsAt(st, saves, i) && FoldsAt(st, saves, i + 1);
        OneMoreSave(st, saves, i);
      }
    }
  }

  /** The first binding is saved and its record is not: the journal knows of no bound directory. */
  lemma LostRecordBreaksTheFold()
    ensures var s := Save(Config(map[], map["/a" := "space"], map[]), {}, {}, false, true);
      var st := AfterSave(Store(None, []), s);
      Bound(st) == {"/a"} && Fold({}, st.journal) == {}
  {
    var s := Save(Config(map[], map["/a" := "space"], map[]), {}, {}, false, true);
    BoundAfterSave(Store(None, []), s);
  }

  /** A stale copy can bring an unbound directory back: its own entries always win. */
  lemma StaleCopyRebinds(st: Store, s: Save, d: string)
    requires d in s.copy.spaces
    ensures d in Bound(AfterSave(st, s)) && SpacesOf(AfterSave(st, s).disk)[d] == s.copy.spaces[d]
  {
    if !Changes(st.disk, s) {
      NoDiffMeansEqual(SpacesOf(st.disk), Next(st.disk, s).spaces);
    }
  }

  // ----- resolving a directory to a space

  /** A canonical absolute directory: "/" or "/a/b", never a trailing or doubled slash. */
  predicate Canonical(p: string) {
    && p != "" && p[0] == '/'
    && (p != "/" ==> p[|p| - 1] != '/')
    && (forall i :: 0 <= i < |p| - 1 ==> !(p[i] == '/' && p[i + 1] == '/'))
  }

  function LastSlash(p: string): (k: int)
    ensures -1 <= k < |p|
    ensures k >= 0 ==> p[k] == '/'
    ensures forall i :: k < i < |p| ==> p[i] != '/'
  {
    if p == "" then -1 else if p[|p| - 1] == '/' then |p| - 1 else LastSlash(p[..|p| - 1])
  }

  /** dirname */
  function Parent(p: string): (q: string)
    requires Canonical(p)
    ensures Canonical(q)
    ensures p != "/" ==> |q| < |p|
  {
    if p == "/" then p
    else
      var k := LastSlash(p);
      if k == 0 then "/" else p[..k]
  }

  /** `here` is `p` or lies below it. */
  predicate Ancestor(p: string, here: string) {
    p == here || p == "/" || StartsWith(here, p + "/")
  }

  lemma AncestorOfParent(p: string, here: string)
    requires Canonical(p) && Canonical(here) && here != "/"
    ensures Ancestor(p, here) <==> p == here || Ancestor(p, Parent(here))
  {
    var k := LastSlash(here);
    var up := Parent(here);
    if p != here && p != "/" {
      if StartsWith(here, p + "/") {
        assert here[|p|] == here[..|p| + 1][|p|] == '/';
        assert here[..|p|] == here[..|p| + 1][..|p|] == p;
        if k > |p| {
          assert up[..|p| + 1] == here[..|p| + 1];
        }
      }
      if Ancestor(p, up) {
        if p == up {
          assert here[..k + 1] == p + "/";
        } else {
          assert here[..|p| + 1] == up[..|p| + 1];
        }
      }
    }
  }

  ghost predicate ValidBindings(bindings: Bindings) {
    forall d :: d in bindings ==> Canonical(d)
  }

  /** The closest bound ancestor of `directory`, and nothing exactly when no ancestor is bound. */
  method ResolveDirectorySpace(bindings: Bindings, directory: string) returns (r: Option<string>)
    requires Canonical(directory) && ValidBindings(bindings)
    ensures r.None? <==> forall d :: d in bindings ==> !Ancestor(d, directory)
    ensures r.Some? ==> r.value in bindings && Ancestor(r.value, directory)
    ensures r.Some? ==> forall d :: d in bindings && Ancestor(d, directory) ==> Ancestor(d, r.value)
  {
    var cursor := directory;
    while true
      invariant Canonical(cursor)
      invariant forall d :: d in bindings ==> (Ancestor(d, directory) <==> Ancestor(d, cursor))
      decreases |cursor|
    {
      if cursor in bindings { return Some(cursor); }
      var parent := Parent(cursor);
      if parent == cursor { return None; }
      forall d | d in bindings ensures Ancestor(d, cursor) <==> Ancestor(d, parent) {
        AncestorOfParent(d, cursor);
      }
      cursor := parent;
    }
  }

  datatype Source = ExplicitFlag | Environment | Directory(bound: string) | GlobalDefault

  datatype Effective = Effective(space: string, source: Source)

  /** An explicit flag wins, then a non-empty environment value, then the directory, then the default. */
  method ResolveEffectiveSpace(
    bindings: Bindings, tenantId: string, explicit: Option<string>, environment: Option<string>, directory: string)
    returns (e: Effective)
    requires Canonical(directory) && ValidBindings(bindings)
    ensures explicit.Some? ==> e == Effective(explicit.value, ExplicitFlag)
    ensures explicit.None? && environment.Some? && environment.value != "" ==>
      e == Effective(environment.value, Environment)
    ensures e.source.Directory? ==>
      && e.source.bound in bindings && e.space == bindings[e.source.bound]
      && Ancestor(e.source.bound, directory)
      && forall d :: d in bindings && Ancestor(d, directory) ==> Ancestor(d, e.source.bound)
    ensures e.source.GlobalDefault? <==> (explicit.None? && (environment.None? || environment.value == "")
                                          && forall d :: d in bindings ==> !Ancestor(d, directory))
    ensures e.source.GlobalDefault? ==> e.space == tenantId
  {
    if explicit.Some? { return Effective(explicit.value, ExplicitFlag); }
    if environment.Some? && environment.value != "" { return Effective(environment.value, Environment); }
    var selected := ResolveDirectorySpace(bindings, directory);
    if selected.Some? { return Effective(bindings[selected.value], Directory(selected.value)); }
    return Effective(tenantId, GlobalDefault);
  }

  /** The string-prefix test of inheritedSpaceOwnedElsewhere. */
  predicate InsideTree(here: string, bound: string) {
    here == bound || StartsWith(here, bound + "/")
  }

  /** It agrees with the ancestor walk everywhere except below a binding of the root directory. */
  lemma PrefixTestAgreesExactly(here: string, bound: string)
    requires Canonical(here)
    ensures InsideTree(here, bound) <==> Ancestor(bound, here) && !(bound == "/" && here != "/")
  {
    assert |here| >= 2 ==> here[..2][0] == here[0] && here[..2][1] == here[1];
  }

  /**
   * The directories bound to `space`, or none when `here` is inside one of
   * them. When resolution fell through to the global default the ancestor walk
   * and the prefix test agree, so it is all of them.
   */
  method InheritedSpaceOwnedElsewhere(bindings: Bindings, space: string, here: string)
    returns (owners: set<string>)
    ensures (exists d :: d in bindings && bindings[d] == space && InsideTree(here, d)) ==> owners == {}
    ensures (forall d :: d in bindings && bindings[d] == space ==> !InsideTree(here, d)) ==>
      owners == set d | d in bindings && bindings[d] == space
    ensures (forall d :: d in bindings ==> !Ancestor(d, here)) ==>
      owners == set d | d in bindings && bindings[d] == space
  {
    owners := {};
    var left := bindings.Keys;
    while left != {}
      invariant left <= bindings.Keys
      invariant forall d :: d in bindings && d !in left && bindings[d] == space ==> !InsideTree(here, d)
      invariant owners == set d | d in bindings && d !in left && bindings[d] == space
      decreases left
    {
      var d :| d in left;
      left := left - {d};
      if bindings[d] == space {
        if InsideTree(here, d) { return {}; }
        owners := owners + {d};
      }
    }
  }
}
