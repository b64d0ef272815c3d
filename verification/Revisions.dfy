/** `build_revisions`: replaying partial edits into versions, and reporting what each edit changed. */
module Revisions {
  import opened Basics
  import opened Segments
  import opened Text
  import opened WordDiffs

  datatype Kind = TextField | ValueField | FileField

  datatype Tracked = Tracked(field: string, kind: Kind)

  const TRACKED: seq<Tracked> := [
    Tracked("title", TextField), Tracked("abstract", TextField), Tracked("TLDR", TextField),
    Tracked("keywords", ValueField), Tracked("primary_area", ValueField), Tracked("authors", ValueField),
    Tracked("pdf", FileField), Tracked("supplementary_material", FileField)]

  const MAX_SEGMENTS := 400

  /** An edit is a partial patch: the fields it sets, where `None` deletes one. */
  datatype Edit = Edit(id: string, patch: map<string, Option<string>>)

  type Fields = map<string, Option<string>>

  /** File field -> the edit that carried the file. */
  type Sources = map<string, string>

  datatype Verb = Replaced | Added | Removed

  datatype FieldChange =
    | FileChange(field: string, verb: Verb, beforeUrl: Option<string>, afterUrl: Option<string>)
    | TextChange(field: string, before: string, after: string, similarity: real, segments: seq<Segment>)
    | ValueChange(field: string, oldValue: Option<string>, newValue: Option<string>)

  datatype RevisionEntry = RevisionEntry(id: string, changes: seq<FieldChange>, isBaseline: bool)

  predicate Filled(v: Option<string>) {
    v.Some? && v.value != ""
  }

  function Get(fields: Fields, f: string): Option<string> {
    if f in fields then fields[f] else None
  }

  /** A past file can be fetched only through the edit that carried it. */
  function FileUrl(f: string, edit: Option<string>): Option<string> {
    if Filled(edit) then Some("https://api2.openreview.net/notes/edits/attachment?id=" + edit.value + "&name=" + f)
        else None
  }

  function FileVerb(before: Option<string>, after: Option<string>): Verb {
    if Filled(before) && Filled(after) then Replaced else if Filled(after) then Added else Removed
  }

  function SourceOf(src: Sources, f: string): Option<string> {
    if f in src then Some(src[f]) else None
  }

  // ----- one step

  /** The change reported for one tracked field, if any. A field not seen before is not a change. */
  ghost function ChangeOf(lib: Difflib, t: Tracked, prev: Fields, cur: Fields, prevSrc: Sources,
                          curSrc: Sources): seq<FieldChange>
    requires lib.Valid()
  {
    var before, after := Get(prev, t.field), Get(cur, t.field);
    if before == after || t.field !in prev then []
    else if t.kind == FileField then
      [FileChange(t.field, FileVerb(before, after),
                  if Filled(before) then FileUrl(t.field, SourceOf(prevSrc, t.field)) else None,
                  if Filled(after) then FileUrl(t.field, SourceOf(curSrc, t.field)) else None)]
    else if t.kind == TextField && Filled(before) && Filled(after) then
      [TextChange(t.field, before.value, after.value,
                  lib.wordRatio(TokensOf(Plain, before.value), TokensOf(Plain, after.value)),
                  Capped(FullDiff(lib, Plain, before.value, after.value), MAX_SEGMENTS))]
    else [ValueChange(t.field, before, after)]
  }

  ghost function ChangesOf(lib: Difflib, tracked: seq<Tracked>, prev: Fields, cur: Fields, prevSrc: Sources,
                           curSrc: Sources)
    : seq<FieldChange>
    requires lib.Valid()
  {
    if tracked == [] then []
    else
      ChangesOf(lib, tracked[..|tracked| - 1], prev, cur, prevSrc, curSrc)
      + ChangeOf(lib, tracked[|tracked| - 1], prev, cur, prevSrc, curSrc)
  }

  /** `_diff_fields` */
  method DiffFields(lib: Difflib, prev: Fields, cur: Fields, prevSrc: Sources, curSrc: Sources)
    returns (changes: seq<FieldChange>)
    requires lib.Valid()
    ensures changes == ChangesOf(lib, TRACKED, prev, cur, prevSrc, curSrc)
  {
    changes := [];
    for n := 0 to |TRACKED|
      invariant changes == ChangesOf(lib, TRACKED[..n], prev, cur, prevSrc, curSrc)
    {
      var t := TRACKED[n];
      var before, after := Get(prev, t.field), Get(cur, t.field);
      assert TRACKED[..n + 1][..n] == TRACKED[..n];
      if before != after && !(before.None? && t.field !in prev) {
        if t.kind == FileField {
          var beforeUrl := if Filled(before) then FileUrl(t.field, SourceOf(prevSrc, t.field)) else None;
          var afterUrl := if Filled(after) then FileUrl(t.field, SourceOf(curSrc, t.field)) else None;
          changes := changes + [FileChange(t.field, FileVerb(before, after), beforeUrl, afterUrl)];
        } else if t.kind == TextField && Filled(before) && Filled(after) {
          var ratio, segs := WordDiff(lib, Plain, MAX_SEGMENTS, before.value, after.value);
          changes := changes + [TextChange(t.field, before.value, after.value, ratio, segs)];
        } else {
          changes := changes + [ValueChange(t.field, before, after)];
        }
      }
    }
    assert TRACKED[..|TRACKED|] == TRACKED;
  }

  ghost function Names(tracked: seq<Tracked>): set<string> {
    set t | t in tracked :: t.field
  }

  ghost function FileNames(tracked: seq<Tracked>): set<string> {
    set t | t in tracked && t.kind == FileField :: t.field
  }

  lemma NamesSnoc(tracked: seq<Tracked>, n: nat)
    requires n < |tracked|
    ensures Names(tracked[..n + 1]) == Names(tracked[..n]) + {tracked[n].field}
    ensures FileNames(tracked[..n + 1])
            == FileNames(tracked[..n]) + (if tracked[n].kind == FileField then {tracked[n].field} else {})
  {
    assert tracked[..n + 1] == tracked[..n] + [tracked[n]];
  }

  /** The state after one patch, field by field. */
  ghost predicate Patched(names: set<string>, patch: map<string, Option<string>>, state: Fields, next: Fields) {
    && (forall f :: f in next <==> f in state || (f in names && f in patch))
    && (forall f | f in next :: next[f] == if f in names && f in patch then patch[f] else state[f])
  }

  /** The source of a file moves to this edit only if the edit carries a file. */
  ghost predicate Resourced(files: set<string>, edit: Edit, src: Sources, next: Sources) {
    && (forall f :: f in next <==> f in src || (f in files && Carries(edit, f)))
    && (forall f | f in next :: next[f] == if f in files && Carries(edit, f) then edit.id else src[f])
  }

  predicate Carries(edit: Edit, f: string) {
    f in edit.patch && Filled(edit.patch[f])
  }

  method ApplyPatch(tracked: seq<Tracked>, state: Fields, src: Sources, edit: Edit)
    returns (next: Fields, nextSrc: Sources)
    ensures Patched(Names(tracked), edit.patch, state, next)
    ensures Resourced(FileNames(tracked), edit, src, nextSrc)
  {
    hide Patched, Resourced, Names, FileNames;
    next, nextSrc := state, src;
    NonePatched(tracked, state, src, edit);
    for n := 0 to |tracked|
      invariant Patched(Names(tracked[..n]), edit.patch, state, next)
      invariant Resourced(FileNames(tracked[..n]), edit, src, nextSrc)
    {
      var t := tracked[n];
      NamesSnoc(tracked, n);
      PatchedMore(Names(tracked[..n]), edit.patch, state, next, t.field);
      ResourcedMore(FileNames(tracked[..n]), edit, src, nextSrc, t.field);
      if t.field in edit.patch {
        next := next[t.field := edit.patch[t.field]];
        if t.kind == FileField && Filled(next[t.field]) { nextSrc := nextSrc[t.field := edit.id]; }
      }
      assert FileNames(tracked[..n]) + {} == FileNames(tracked[..n]);
    }
    assert tracked[..|tracked|] == tracked;
  }

  lemma NonePatched(tracked: seq<Tracked>, state: Fields, src: Sources, edit: Edit)
    ensures Patched(Names(tracked[..0]), edit.patch, state, state)
    ensures Resourced(FileNames(tracked[..0]), edit, src, src)
  {
  }

  lemma PatchedMore(names: set<string>, patch: map<string, Option<string>>, state: Fields, next: Fields, f: string)
    requires Patched(names, patch, state, next)
    ensures Patched(names + {f}, patch, state, if f in patch then next[f := patch[f]] else next)
  {
  }

  lemma ResourcedMore(files: set<string>, edit: Edit, src: Sources, next: Sources, f: string)
    requires Resourced(files, edit, src, next)
    ensures Resourced(files + {f}, edit, src, if Carries(edit, f) then next[f := edit.id] else next)
  {
  }

  // ----- what a prefix of the edits adds up to

  /** The value the last edit to mention `f` gave it. */
  ghost function LastSet(edits: seq<Edit>, f: string): Option<Option<string>> {
    if edits == [] then None
    else if f in edits[|edits| - 1].patch then Some(edits[|edits| - 1].patch[f])
    else LastSet(edits[..|edits| - 1], f)
  }

  ghost function Snapshot(edits: seq<Edit>): Fields {
    SnapshotOf(Names(TRACKED), edits)
  }

  /** The last edit to carry a file for `f`. */
  ghost function Carrier(edits: seq<Edit>, f: string): Option<string> {
    if edits == [] then None
    else if Carries(edits[|edits| - 1], f) then Some(edits[|edits| - 1].id)
    else Carrier(edits[..|edits| - 1], f)
  }

  ghost function Carriers(edits: seq<Edit>): Sources {
    CarriersOf(FileNames(TRACKED), edits)
  }

  lemma SnapshotStep(edits: seq<Edit>, i: nat, next: Fields, nextSrc: Sources)
    requires i < |edits|
    requires Patched(Names(TRACKED), edits[i].patch, Snapshot(edits[..i]), next)
    requires Resourced(FileNames(TRACKED), edits[i], Carriers(edits[..i]), nextSrc)
    ensures next == Snapshot(edits[..i + 1]) && nextSrc == Carriers(edits[..i + 1])
  {
    hide Patched, Resourced, TRACKED;
    OneMoreEdit(edits[..i], edits[i], Names(TRACKED), FileNames(TRACKED), next, nextSrc);
    assert edits[..i] + [edits[i]] == edits[..i + 1];
  }

  ghost function SnapshotOf(names: set<string>, edits: seq<Edit>): Fields {
    map f | f in names && LastSet(edits, f).Some? :: LastSet(edits, f).value
  }

  ghost function CarriersOf(files: set<string>, edits: seq<Edit>): Sources {
    map f | f in files && Carrier(edits, f).Some? :: Carrier(edits, f).value
  }

  lemma OneMoreEdit(edits: seq<Edit>, edit: Edit, names: set<string>, files: set<string>, next: Fields,
                    nextSrc: Sources)
    requires Patched(names, edit.patch, SnapshotOf(names, edits), next)
    requires Resourced(files, edit, CarriersOf(files, edits), nextSrc)
    ensures next == SnapshotOf(names, edits + [edit]) && nextSrc == CarriersOf(files, edits + [edit])
  {
    OneMorePatch(edits, edit, names, next);
    OneMoreFile(edits, edit, files, nextSrc);
  }

  lemma LastOfMore(edits: seq<Edit>, edit: Edit, f: string)
    ensures LastSet(edits + [edit], f) == if f in edit.patch then Some(edit.patch[f]) else LastSet(edits, f)
    ensures Carrier(edits + [edit], f) == if Carries(edit, f) then Some(edit.id) else Carrier(edits, f)
  {
    assert (edits + [edit])[..|edits|] == edits;
  }

  lemma OneMorePatch(edits: seq<Edit>, edit: Edit, names: set<string>, next: Fields)
    requires Patched(names, edit.patch, SnapshotOf(names, edits), next)
    ensures next == SnapshotOf(names, edits + [edit])
  {
    var now := SnapshotOf(names, edits + [edit]);
    forall f ensures (f in next <==> f in now) && (f in now ==> next[f] == now[f]) {
      LastOfMore(edits, edit, f);
    }
    assert next.Keys == now.Keys;
  }

  lemma OneMoreFile(edits: seq<Edit>, edit: Edit, files: set<string>, nextSrc: Sources)
    requires Resourced(files, edit, CarriersOf(files, edits), nextSrc)
    ensures nextSrc == CarriersOf(files, edits + [edit])
  {
    hide Carries;
    var now := CarriersOf(files, edits + [edit]);
    forall f ensures (f in nextSrc <==> f in now) && (f in now ==> nextSrc[f] == now[f]) {
      LastOfMore(edits, edit, f);
    }
    assert nextSrc.Keys == now.Keys;
  }

  /** What edit `i` changed. */
  ghost function ChangesAt(lib: Difflib, edits: seq<Edit>, i: nat): seq<FieldChange>
    requires lib.Valid() && i < |edits|
  {
    if i == 0 then []
    else ChangesOf(lib, TRACKED, Snapshot(edits[..i]), Snapshot(edits[..i + 1]), Carriers(edits[..i]),
                   Carriers(edits[..i + 1]))
  }

  /** `build_revisions` */
  method BuildRevisions(lib: Difflib, edits: seq<Edit>) returns (out: seq<RevisionEntry>)
    requires lib.Valid()
    ensures |out| == |edits|
    ensures forall i | 0 <= i < |out| :: out[i] == RevisionEntry(edits[i].id, ChangesAt(lib, edits, i), i == 0)
  {
    hide Snapshot, Carriers, ChangesOf, Patched, Resourced, Difflib.Valid, TRACKED;
    out := [];
    var state: Fields, src: Sources := map[], map[];
    NothingYet();
    assert edits[..0] == [];
    for i := 0 to |edits|
      invariant |out| == i && state == Snapshot(edits[..i]) && src == Carriers(edits[..i])
      invariant forall k | 0 <= k < i :: out[k] == RevisionEntry(edits[k].id, ChangesAt(lib, edits, k), k == 0)
    {
      var next, nextSrc := ApplyPatch(TRACKED, state, src, edits[i]);
      SnapshotStep(edits, i, next, nextSrc);
      var changes := [];
      if i != 0 { changes := DiffFields(lib, state, next, src, nextSrc); }
      out := out + [RevisionEntry(edits[i].id, changes, i == 0)];
      state, src := next, nextSrc;
    }
  }

  lemma NothingYet()
    ensures Snapshot([]) == map[] && Carriers([]) == map[]
  {
  }

  // ----- what the reports mean

  /** `edits[i]` is the last to mention `f`. */
  ghost predicate SetsLast(edits: seq<Edit>, f: string, i: nat) {
    i < |edits| && f in edits[i].patch && forall j | i < j < |edits| :: f !in edits[j].patch
  }

  lemma {:induction false} LastSetIs(edits: seq<Edit>, f: string)
    ensures LastSet(edits, f).None? <==> forall i | 0 <= i < |edits| :: f !in edits[i].patch
    ensures LastSet(edits, f).Some? ==>
      exists i: nat :: SetsLast(edits, f, i) && LastSet(edits, f) == Some(edits[i].patch[f])
  {
    if edits != [] {
      var n := |edits| - 1;
      if f in edits[n].patch {
        assert SetsLast(edits, f, n);
      } else {
        LastSetIs(edits[..n], f);
        assert forall i | 0 <= i < n :: edits[..n][i] == edits[i];
        if LastSet(edits[..n], f).Some? {
          var i: nat :| SetsLast(edits[..n], f, i) && LastSet(edits[..n], f) == Some(edits[..n][i].patch[f]);
          assert SetsLast(edits, f, i);
        }
      }
    }
  }

  /** Last writer wins: a tracked field is known once some edit mentioned it, and holds what the last such edit gave
      it. */
  lemma LastWriterWins(edits: seq<Edit>, f: string)
    requires f in Names(TRACKED)
    ensures f in Snapshot(edits) <==> exists i | 0 <= i < |edits| :: f in edits[i].patch
    ensures f in Snapshot(edits) ==> exists i: nat :: SetsLast(edits, f, i) && Snapshot(edits)[f] == edits[i].patch[f]
  {
    LastSetIs(edits, f);
  }

  /** A file in force was carried by the last edit to mention the field. */
  lemma {:induction false} CarrierOfFilled(edits: seq<Edit>, f: string, i: nat)
    requires SetsLast(edits, f, i) && Filled(edits[i].patch[f])
    ensures Carrier(edits, f) == Some(edits[i].id)
  {
    var n := |edits| - 1;
    if i < n {
      assert forall j | 0 <= j < n :: edits[..n][j] == edits[j];
      CarrierOfFilled(edits[..n], f, i);
    }
  }

  /** Every link names the edit that carried the file in force, across deletions and re-uploads; no file, no link. */
  lemma LinkNamesCarrier(edits: seq<Edit>, f: string)
    requires f in FileNames(TRACKED) && f in Snapshot(edits) && Filled(Snapshot(edits)[f])
    ensures exists i: nat :: SetsLast(edits, f, i) && Snapshot(edits)[f] == edits[i].patch[f]
              && FileUrl(f, SourceOf(Carriers(edits), f)) == FileUrl(f, Some(edits[i].id))
  {
    LastSetIs(edits, f);
    var i: nat :| SetsLast(edits, f, i) && LastSet(edits, f) == Some(edits[i].patch[f]);
    CarrierOfFilled(edits, f, i);
  }

  ghost predicate Reports(changes: seq<FieldChange>, f: string) {
    exists k | 0 <= k < |changes| :: changes[k].field == f
  }

  ghost predicate Differs(prev: Fields, cur: Fields, f: string) {
    f in prev && Get(prev, f) != Get(cur, f)
  }

  ghost predicate DistinctFields(tracked: seq<Tracked>) {
    forall i, j | 0 <= i < j < |tracked| :: tracked[i].field != tracked[j].field
  }

  /** The field's report, if any, is exactly `c`. */
  ghost predicate ReportsOnly(changes: seq<FieldChange>, f: string, c: seq<FieldChange>) {
    && (forall k | 0 <= k < |changes| && changes[k].field == f :: [changes[k]] == c)
    && (forall k, l | 0 <= k < l < |changes| :: changes[k].field == f ==> changes[l].field != f)
  }

  lemma ReportsLast(front: seq<FieldChange>, last: seq<FieldChange>, f: string)
    requires |last| <= 1 && forall k | 0 <= k < |last| :: last[k].field == f
    requires forall k | 0 <= k < |front| :: front[k].field != f
    ensures (Reports(front + last, f) <==> last != []) && ReportsOnly(front + last, f, last)
  {
    var changes := front + last;
    if last != [] { assert changes[|front|] == last[0] && last == [last[0]]; }
  }

  lemma ReportsFront(front: seq<FieldChange>, last: seq<FieldChange>, f: string, c: seq<FieldChange>)
    requires ReportsOnly(front, f, c) && forall k | 0 <= k < |last| :: last[k].field != f
    ensures (Reports(front + last, f) <==> Reports(front, f)) && ReportsOnly(front + last, f, c)
  {
    var changes := front + last;
    assert forall k | 0 <= k < |front| :: changes[k] == front[k];
    if Reports(front, f) {
      var k :| 0 <= k < |front| && front[k].field == f;
      assert changes[k].field == f;
    }
  }

  /** A field is reported exactly when it was known and now differs, once, and with `ChangeOf`. */
  lemma {:induction false} ReportedExactly(lib: Difflib, tracked: seq<Tracked>, prev: Fields, cur: Fields,
                                           prevSrc: Sources, curSrc: Sources, t: Tracked)
    requires lib.Valid() && DistinctFields(tracked) && t in tracked
    ensures var changes := ChangesOf(lib, tracked, prev, cur, prevSrc, curSrc);
      && (Reports(changes, t.field) <==> Differs(prev, cur, t.field))
      && ReportsOnly(changes, t.field, ChangeOf(lib, t, prev, cur, prevSrc, curSrc))
  {
    var n := |tracked| - 1;
    var front, last := ChangesOf(lib, tracked[..n], prev, cur, prevSrc, curSrc),
        ChangeOf(lib, tracked[n], prev, cur, prevSrc, curSrc);
    hide ChangeOf, Reports, ReportsOnly, Differs, Difflib.Valid;
    OneChange(lib, tracked[n], prev, cur, prevSrc, curSrc);
    if t == tracked[n] {
      NotReported(lib, tracked[..n], prev, cur, prevSrc, curSrc, t.field);
      ReportsLast(front, last, t.field);
    } else {
      var i :| 0 <= i < |tracked| && tracked[i] == t;
      assert tracked[..n][i] == t;
      ReportedExactly(lib, tracked[..n], prev, cur, prevSrc, curSrc, t);
      assert tracked[n].field != t.field;
      ReportsFront(front, last, t.field, ChangeOf(lib, t, prev, cur, prevSrc, curSrc));
    }
  }

  lemma OneChange(lib: Difflib, t: Tracked, prev: Fields, cur: Fields, prevSrc: Sources, curSrc: Sources)
    requires lib.Valid()
    ensures var c := ChangeOf(lib, t, prev, cur, prevSrc, curSrc);
      && (c == [] <==> !Differs(prev, cur, t.field)) && |c| <= 1 && (c != [] ==> c[0].field == t.field)
  {
  }

  lemma {:induction false} NotReported(lib: Difflib, tracked: seq<Tracked>, prev: Fields, cur: Fields,
                                       prevSrc: Sources, curSrc: Sources, f: string)
    requires lib.Valid() && forall i | 0 <= i < |tracked| :: tracked[i].field != f
    ensures forall k | 0 <= k < |ChangesOf(lib, tracked, prev, cur, prevSrc, curSrc)| ::
      ChangesOf(lib, tracked, prev, cur, prevSrc, curSrc)[k].field != f
  {
    if tracked != [] {
      var n := |tracked| - 1;
      NotReported(lib, tracked[..n], prev, cur, prevSrc, curSrc, f);
      hide ChangeOf;
      OneChange(lib, tracked[n], prev, cur, prevSrc, curSrc);
    }
  }

  lemma TrackedDistinct()
    ensures DistinctFields(TRACKED)
  {
    forall i, j | 0 <= i < j < |TRACKED| ensures TRACKED[i].field != TRACKED[j].field {
      assert |TRACKED[i].field| != |TRACKED[j].field| || TRACKED[i].field[0] != TRACKED[j].field[0];
    }
  }

  lemma StaysUnreported(lib: Difflib, edits: seq<Edit>, t: Tracked, i: nat)
    requires lib.Valid() && t in TRACKED && 0 < i < |edits| && t.field in Snapshot(edits[..i])
    requires !Reports(ChangesAt(lib, edits, i), t.field)
    ensures t.field in Snapshot(edits[..i + 1]) && Snapshot(edits[..i + 1])[t.field] == Snapshot(edits[..i])[t.field]
  {
    KnownStays(edits, i, t.field);
    TrackedDistinct();
    hide Snapshot, Carriers, Reports, ChangeOf, ChangesOf, DistinctFields;
    ReportedExactly(lib, TRACKED, Snapshot(edits[..i]), Snapshot(edits[..i + 1]), Carriers(edits[..i]),
                    Carriers(edits[..i + 1]), t);
  }

  /** While no edit reports a field it keeps its value. */
  lemma {:induction false} UnreportedKeeps(lib: Difflib, edits: seq<Edit>, t: Tracked, i: nat, j: nat)
    requires lib.Valid() && t in TRACKED && i < j <= |edits| && t.field in Snapshot(edits[..i + 1])
    requires forall k | i < k < j :: !Reports(ChangesAt(lib, edits, k), t.field)
    ensures t.field in Snapshot(edits[..j]) && Snapshot(edits[..j])[t.field] == Snapshot(edits[..i + 1])[t.field]
  {
    hide Snapshot, Reports, ChangesAt;
    if j > i + 1 {
      UnreportedKeeps(lib, edits, t, i, j - 1);
      StaysUnreported(lib, edits, t, j - 1);
    }
  }

  lemma KnownStays(edits: seq<Edit>, i: nat, f: string)
    requires i < |edits| && f in Snapshot(edits[..i])
    ensures f in Snapshot(edits[..i + 1])
  {
    assert edits[..i + 1][..i] == edits[..i];
  }

  predicate ReportsValues(c: FieldChange) {
    !c.FileChange?
  }

  function OldOf(c: FieldChange): Option<string>
    requires ReportsValues(c)
  {
    if c.TextChange? then Some(c.before) else c.oldValue
  }

  function NewOf(c: FieldChange): Option<string>
    requires ReportsValues(c)
  {
    if c.TextChange? then Some(c.after) else c.newValue
  }

  lemma ChangeIs(lib: Difflib, edits: seq<Edit>, i: nat, t: Tracked, c: FieldChange)
    requires lib.Valid() && i < |edits| && t in TRACKED && c in ChangesAt(lib, edits, i) && c.field == t.field
    ensures 0 < i && t.field in Snapshot(edits[..i]) && t.field in Snapshot(edits[..i + 1])
    ensures var found := ChangeOf(lib, t, Snapshot(edits[..i]), Snapshot(edits[..i + 1]), Carriers(edits[..i]),
                                  Carriers(edits[..i + 1]));
            found == [c] && found[0] == c
  {
    TrackedDistinct();
    hide Snapshot, Carriers;
    var prev, cur := Snapshot(edits[..i]), Snapshot(edits[..i + 1]);
    ReportedExactly(lib, TRACKED, prev, cur, Carriers(edits[..i]), Carriers(edits[..i + 1]), t);
    var k :| 0 <= k < |ChangesAt(lib, edits, i)| && ChangesAt(lib, edits, i)[k] == c;
    assert [c] == ChangeOf(lib, t, prev, cur, Carriers(edits[..i]), Carriers(edits[..i + 1]));
    KnownStays(edits, i, t.field);
  }

  /** A reported change runs from the value before the edit to the value after it. */
  lemma ReportIsTransition(lib: Difflib, edits: seq<Edit>, i: nat, t: Tracked, c: FieldChange)
    requires lib.Valid() && i < |edits| && t in TRACKED && c in ChangesAt(lib, edits, i) && c.field == t.field
    ensures 0 < i && t.field in Snapshot(edits[..i]) && t.field in Snapshot(edits[..i + 1])
    ensures c.FileChange? <==> t.kind == FileField
    ensures !c.FileChange? ==>
              OldOf(c) == Snapshot(edits[..i])[t.field] && NewOf(c) == Snapshot(edits[..i + 1])[t.field]
    ensures c.FileChange? ==>
      && c.beforeUrl
          == (if Filled(Snapshot(edits[..i])[t.field]) then FileUrl(t.field, SourceOf(Carriers(edits[..i]), t.field))
              else None)
      && c.afterUrl
          == (if Filled(Snapshot(edits[..i + 1])[t.field])
              then FileUrl(t.field, SourceOf(Carriers(edits[..i + 1]), t.field)) else None)
    ensures c.TextChange? ==>
      && c.segments == Capped(FullDiff(lib, Plain, c.before, c.after), MAX_SEGMENTS)
      && c.similarity == lib.wordRatio(Words(c.before), Words(c.after))
  {
    hide Snapshot, Carriers, ChangesAt;
    ChangeIs(lib, edits, i, t, c);
  }

  lemma FileReportLinks(lib: Difflib, edits: seq<Edit>, i: nat, t: Tracked, c: FieldChange)
    requires lib.Valid() && i < |edits| && t in TRACKED && t.kind == FileField && c in ChangesAt(lib, edits, i)
    requires c.field == t.field
    ensures 0 < i && t.field in Snapshot(edits[..i]) && t.field in Snapshot(edits[..i + 1]) && c.FileChange?
    ensures Filled(Snapshot(edits[..i])[t.field]) ==>
              c.beforeUrl == FileUrl(t.field, SourceOf(Carriers(edits[..i]), t.field))
    ensures Filled(Snapshot(edits[..i + 1])[t.field]) ==>
              c.afterUrl == FileUrl(t.field, SourceOf(Carriers(edits[..i + 1]), t.field))
  {
    ReportIsTransition(lib, edits, i, t, c);
  }

  /** Successive reports of a text or value field chain end to start. */
  lemma ReportsChain(lib: Difflib, edits: seq<Edit>, t: Tracked, i: nat, j: nat, c: FieldChange, d: FieldChange)
    requires lib.Valid() && t in TRACKED && t.kind != FileField && i < j < |edits|
    requires c in ChangesAt(lib, edits, i) && c.field == t.field && d in ChangesAt(lib, edits, j) && d.field == t.field
    requires forall k | i < k < j :: !Reports(ChangesAt(lib, edits, k), t.field)
    ensures !c.FileChange? && !d.FileChange? && NewOf(c) == OldOf(d)
  {
    ReportIsTransition(lib, edits, i, t, c);
    ReportIsTransition(lib, edits, j, t, d);
    UnreportedKeeps(lib, edits, t, i, j);
  }

  // ----- the links of successive file reports

  /** `edits[k]` is the last to carry a file for `f`. */
  ghost predicate CarriesLast(edits: seq<Edit>, f: string, k: nat) {
    k < |edits| && Carries(edits[k], f) && forall l | k < l < |edits| :: !Carries(edits[l], f)
  }

  lemma {:induction false} CarrierOfLast(edits: seq<Edit>, f: string, k: nat)
    requires CarriesLast(edits, f, k)
    ensures Carrier(edits, f) == Some(edits[k].id)
  {
    hide Carries;
    var n := |edits| - 1;
    if k < n {
      assert forall l | 0 <= l < n :: edits[..n][l] == edits[l];
      CarrierOfLast(edits[..n], f, k);
    }
  }

  lemma {:induction false} LastCarrier(edits: seq<Edit>, f: string, i: nat) returns (k: nat)
    requires i < |edits| && Carries(edits[i], f)
    ensures i <= k && CarriesLast(edits, f, k)
    decreases |edits|
  {
    hide Carries;
    var n := |edits| - 1;
    if Carries(edits[n], f) {
      k := n;
    } else {
      assert forall l | 0 <= l < n :: edits[..n][l] == edits[l];
      k := LastCarrier(edits[..n], f, i);
    }
  }

  /** Every edit has an id of its own. */
  ghost predicate DistinctIds(edits: seq<Edit>) {
    && (forall i | 0 <= i < |edits| :: edits[i].id != "")
    && (forall i, j | 0 <= i < j < |edits| :: edits[i].id != edits[j].id)
  }

  lemma LinksTellApart(f: string, x: string, y: string)
    requires x != "" && y != "" && FileUrl(f, Some(x)) == FileUrl(f, Some(y))
    ensures x == y
  {
    var head, tail := "https://api2.openreview.net/notes/edits/attachment?id=", "&name=" + f;
    var u, v := head + x + "&name=" + f, head + y + "&name=" + f;
    assert u == v && |u| == |head| + |x| + |"&name="| + |f|;
    assert u[|head|..|head| + |x|] == x && v[|head|..|head| + |y|] == y;
  }

  /** A file is reported by the edit that brought it, and that edit is its carrier from then on. */
  lemma ReporterSets(edits: seq<Edit>, i: nat, f: string)
    requires i < |edits| && f in Snapshot(edits[..i]) && f in Snapshot(edits[..i + 1])
    requires Snapshot(edits[..i])[f] != Snapshot(edits[..i + 1])[f]
    ensures f in edits[i].patch && Snapshot(edits[..i + 1])[f] == edits[i].patch[f]
  {
    assert edits[..i + 1][..i] == edits[..i] && edits[..i + 1][i] == edits[i];
  }

  lemma RestatedSame(lib: Difflib, edits: seq<Edit>, t: Tracked, i: nat, j: nat, k: nat)
    requires lib.Valid() && t in TRACKED && i < k < j <= |edits| && t.field in Snapshot(edits[..i + 1])
    requires forall l | i < l < j :: !Reports(ChangesAt(lib, edits, l), t.field)
    requires t.field in edits[k].patch
    ensures edits[k].patch[t.field] == Snapshot(edits[..i + 1])[t.field]
  {
    hide Reports, ChangesAt;
    UnreportedKeeps(lib, edits, t, i, k + 1);
    assert edits[..k + 1][k] == edits[k];
  }

  lemma SourceIsCarrier(edits: seq<Edit>, f: string)
    requires f in FileNames(TRACKED)
    ensures SourceOf(Carriers(edits), f) == Carrier(edits, f)
  {
  }

  /** The link of the file in force, seen from `edits[i]` that brought it, is the same at `j` just when no edit in
      between carried the file again. */
  lemma LinkMoves(edits: seq<Edit>, f: string, i: nat, j: nat)
    requires f in FileNames(TRACKED) && i < j <= |edits| && DistinctIds(edits) && Carries(edits[i], f)
    ensures FileUrl(f, SourceOf(Carriers(edits[..j]), f)) == FileUrl(f, SourceOf(Carriers(edits[..i + 1]), f)) <==>
              !exists k | i < k < j :: Carries(edits[k], f)
  {
    hide Carries, Carriers, FileUrl;
    SourceIsCarrier(edits[..j], f);
    SourceIsCarrier(edits[..i + 1], f);
    assert edits[..i + 1][i] == edits[i];
    CarrierOfLast(edits[..i + 1], f, i);
    assert forall l | 0 <= l < j :: edits[..j][l] == edits[l];
    var k := LastCarrier(edits[..j], f, i);
    CarrierOfLast(edits[..j], f, k);
    if FileUrl(f, Some(edits[k].id)) == FileUrl(f, Some(edits[i].id)) {
      LinksTellApart(f, edits[k].id, edits[i].id);
      assert k == i;
      assert forall l | i < l < j :: !Carries(edits[..j][l], f);
    } else {
      assert i < k < j && Carries(edits[k], f);
    }
  }

  /** Successive reports of a file field name the same file, but by one link just when no edit in between carried it
      again: such an edit reports nothing and yet becomes the source of the link. */
  lemma FileReportsChain(lib: Difflib, edits: seq<Edit>, t: Tracked, i: nat, j: nat, c: FieldChange, d: FieldChange)
    requires lib.Valid() && t in TRACKED && t.kind == FileField && i < j < |edits| && DistinctIds(edits)
    requires c in ChangesAt(lib, edits, i) && c.field == t.field && d in ChangesAt(lib, edits, j) && d.field == t.field
    requires forall k | i < k < j :: !Reports(ChangesAt(lib, edits, k), t.field)
    ensures c.FileChange? && d.FileChange?
    ensures t.field in Snapshot(edits[..i + 1]) && t.field in Snapshot(edits[..j])
    ensures Snapshot(edits[..j])[t.field] == Snapshot(edits[..i + 1])[t.field]
    ensures forall k | i < k < j && Carries(edits[k], t.field) ::
            edits[k].patch[t.field] == Snapshot(edits[..i + 1])[t.field]
    ensures d.beforeUrl == c.afterUrl <==>
              !Filled(Snapshot(edits[..i + 1])[t.field]) || !exists k | i < k < j :: Carries(edits[k], t.field)
  {
    var f := t.field;
    ReportIsTransition(lib, edits, i, t, c);
    ReportIsTransition(lib, edits, j, t, d);
    UnreportedKeeps(lib, edits, t, i, j);
    hide Snapshot, Carriers, FileUrl, Reports, ChangesAt;
    forall k | i < k < j && Carries(edits[k], f) ensures edits[k].patch[f] == Snapshot(edits[..i + 1])[f] {
      RestatedSame(lib, edits, t, i, j, k);
    }
    ReportDiffers(lib, edits, i, t, c);
    ReporterSets(edits, i, f);
    if Filled(Snapshot(edits[..i + 1])[f]) {
      assert f in FileNames(TRACKED);
      LinkMoves(edits, f, i, j);
    }
  }

  lemma ReportDiffers(lib: Difflib, edits: seq<Edit>, i: nat, t: Tracked, c: FieldChange)
    requires lib.Valid() && i < |edits| && t in TRACKED && c in ChangesAt(lib, edits, i) && c.field == t.field
    ensures 0 < i && Differs(Snapshot(edits[..i]), Snapshot(edits[..i + 1]), t.field)
  {
    ReportedWhen(lib, edits, i, t);
  }

  lemma ReportedWhen(lib: Difflib, edits: seq<Edit>, i: nat, t: Tracked)
    requires lib.Valid() && i < |edits| && t in TRACKED
    ensures Reports(ChangesAt(lib, edits, i), t.field) <==>
              0 < i && Differs(Snapshot(edits[..i]), Snapshot(edits[..i + 1]), t.field)
  {
    if i > 0 {
      TrackedDistinct();
      hide Snapshot, Carriers, ChangesOf, Reports, Differs, DistinctFields;
      ReportedExactly(lib, TRACKED, Snapshot(edits[..i]), Snapshot(edits[..i + 1]), Carriers(edits[..i]),
                      Carriers(edits[..i + 1]), t);
    }
  }

  lemma StatedLast(edits: seq<Edit>, f: string)
    requires f in Names(TRACKED) && edits != [] && f in edits[|edits| - 1].patch
    ensures f in Snapshot(edits) && Snapshot(edits)[f] == edits[|edits| - 1].patch[f]
    ensures f in FileNames(TRACKED) && Carries(edits[|edits| - 1], f) ==>
              SourceOf(Carriers(edits), f) == Some(edits[|edits| - 1].id)
  {
  }

  /** Of two edits in a row that both state a field, the second reports it just when it states it differently. */
  lemma StatedTwice(lib: Difflib, edits: seq<Edit>, t: Tracked, n: nat)
    requires lib.Valid() && t in TRACKED && 0 < n < |edits| && t.field in edits[n - 1].patch
    requires t.field in edits[n].patch
    ensures Reports(ChangesAt(lib, edits, n), t.field) <==> edits[n - 1].patch[t.field] != edits[n].patch[t.field]
  {
    assert t.field in Names(TRACKED);
    hide ChangesAt, Snapshot, Carriers, Difflib.Valid, TRACKED, Names, FileNames, Reports;
    StatedLast(edits[..n], t.field);
    StatedLast(edits[..n + 1], t.field);
    ReportedWhen(lib, edits, n, t);
  }

  lemma StatedLinks(lib: Difflib, edits: seq<Edit>, t: Tracked, n: nat, c: FieldChange)
    requires lib.Valid() && t in TRACKED && t.kind == FileField && 0 < n < |edits|
    requires Carries(edits[n - 1], t.field) && Carries(edits[n], t.field) && c in ChangesAt(lib, edits, n)
    requires c.field == t.field
    ensures c.FileChange?
    ensures c.beforeUrl == FileUrl(t.field, Some(edits[n - 1].id)) && c.afterUrl == FileUrl(t.field, Some(edits[n].id))
  {
    assert t.field in Names(TRACKED) && t.field in FileNames(TRACKED);
    hide FileUrl, ChangesAt, Snapshot, Carriers, SourceOf, Difflib.Valid, TRACKED, Names, FileNames, FullDiff, Capped,
      OldOf, NewOf;
    StatedLast(edits[..n], t.field);
    StatedLast(edits[..n + 1], t.field);
    FileReportLinks(lib, edits, n, t, c);
  }

  /** Four edits with a file each, the third of which states the file of the second again. */
  ghost predicate Restates(edits: seq<Edit>, f: string) {
    && |edits| == 4 && DistinctIds(edits)
    && Carries(edits[0], f) && Carries(edits[1], f) && Carries(edits[2], f) && Carries(edits[3], f)
    && edits[0].patch[f] != edits[1].patch[f] && edits[1].patch[f] == edits[2].patch[f]
        && edits[2].patch[f] != edits[3].patch[f]
  }

  /** The chain of links does break. The third edit reports nothing; the report before it ends in a link to the second
      edit, and the report after it starts from a link to the third. */
  lemma RestatedFileBreaksChain(lib: Difflib, edits: seq<Edit>, t: Tracked)
    requires lib.Valid() && t in TRACKED && t.kind == FileField && Restates(edits, t.field)
    ensures Reports(ChangesAt(lib, edits, 1), t.field) && !Reports(ChangesAt(lib, edits, 2), t.field)
    ensures Reports(ChangesAt(lib, edits, 3), t.field)
    ensures forall c, d | c in ChangesAt(lib, edits, 1) && c.field == t.field && d in ChangesAt(lib, edits, 3)
            && d.field == t.field ::
              && c.FileChange? && c.afterUrl == FileUrl(t.field, Some(edits[1].id))
              && d.FileChange? && d.beforeUrl == FileUrl(t.field, Some(edits[2].id)) && d.beforeUrl != c.afterUrl
  {
    var f := t.field;
    hide FileUrl, ChangesAt, Reports, Difflib.Valid, TRACKED;
    StatedTwice(lib, edits, t, 1);
    StatedTwice(lib, edits, t, 2);
    StatedTwice(lib, edits, t, 3);
    forall c, d | c in ChangesAt(lib, edits, 1) && c.field == f && d in ChangesAt(lib, edits, 3) && d.field == f
      ensures c.FileChange? && c.afterUrl == FileUrl(f, Some(edits[1].id))
      ensures d.FileChange? && d.beforeUrl == FileUrl(f, Some(edits[2].id)) && d.beforeUrl != c.afterUrl
    {
      StatedLinks(lib, edits, t, 1, c);
      StatedLinks(lib, edits, t, 3, d);
      if d.beforeUrl == c.afterUrl { LinksTellApart(f, edits[2].id, edits[1].id); }
    }
  }

  /** Such edits: paper A, then B, then B again, then C. */
  lemma FourEditsRestate()
    ensures Restates([Edit("e0", map["pdf" := Some("A")]), Edit("e1", map["pdf" := Some("B")]),
                      Edit("e2", map["pdf" := Some("B")]), Edit("e3", map["pdf" := Some("C")])], "pdf")
  {
    var edits := [Edit("e0", map["pdf" := Some("A")]), Edit("e1", map["pdf" := Some("B")]),
                  Edit("e2", map["pdf" := Some("B")]), Edit("e3", map["pdf" := Some("C")])];
    assert "A"[0] != "B"[0] && "B"[0] != "C"[0];
    assert edits[0].id[1] == '0' && edits[1].id[1] == '1' && edits[2].id[1] == '2' && edits[3].id[1] == '3';
    assert DistinctIds(edits);
  }

  /** A field's value after reading one entry's changes. */
  ghost function Follow(changes: seq<FieldChange>, f: string, value: Option<string>): Option<string> {
    if changes == [] then value
    else
      var c := changes[|changes| - 1];
      if c.field == f && ReportsValues(c) then NewOf(c) else Follow(changes[..|changes| - 1], f, value)
  }

  /** The value a reader ends up with who starts from the first version and follows the reports of a field. */
  ghost function Followed(lib: Difflib, edits: seq<Edit>, f: string, n: nat): Option<string>
    requires lib.Valid() && 1 <= n <= |edits| && f in Snapshot(edits[..1])
  {
    if n == 1 then Snapshot(edits[..1])[f] else Follow(ChangesAt(lib, edits, n - 1), f, Followed(lib, edits, f, n - 1))
  }

  lemma {:induction false} FollowNone(changes: seq<FieldChange>, f: string, value: Option<string>)
    requires !Reports(changes, f)
    ensures Follow(changes, f, value) == value
  {
    if changes != [] {
      var n := |changes| - 1;
      assert forall k | 0 <= k < n :: changes[..n][k] == changes[k];
      FollowNone(changes[..n], f, value);
    }
  }

  lemma {:induction false} FollowOne(changes: seq<FieldChange>, f: string, value: Option<string>, k: nat)
    requires k < |changes| && changes[k].field == f && ReportsValues(changes[k])
    requires forall l | k < l < |changes| :: changes[l].field != f
    ensures Follow(changes, f, value) == NewOf(changes[k])
  {
    var n := |changes| - 1;
    if k < n { FollowOne(changes[..n], f, value, k); }
  }

  lemma ReplayOne(lib: Difflib, edits: seq<Edit>, t: Tracked, i: nat, value: Option<string>)
    requires lib.Valid() && t in TRACKED && t.kind != FileField && 0 < i < |edits|
    requires t.field in Snapshot(edits[..i]) && Snapshot(edits[..i])[t.field] == value
    ensures t.field in Snapshot(edits[..i + 1])
    ensures Follow(ChangesAt(lib, edits, i), t.field, value) == Snapshot(edits[..i + 1])[t.field]
  {
    KnownStays(edits, i, t.field);
    hide Snapshot, ChangesAt, Follow;
    var changes, f := ChangesAt(lib, edits, i), t.field;
    if Reports(changes, f) {
      var k: nat :| k < |changes| && changes[k].field == f;
      ReportIsTransition(lib, edits, i, t, changes[k]);
      OnceOnly(lib, edits, i, t);
      FollowOne(changes, f, value, k);
    } else {
      FollowNone(changes, f, value);
      StaysUnreported(lib, edits, t, i);
    }
  }

  /** Starting from the first version and following the reports gives every later version of a text or value field. */
  lemma {:induction false} ReportsReplay(lib: Difflib, edits: seq<Edit>, t: Tracked, n: nat)
    requires lib.Valid() && t in TRACKED && t.kind != FileField && 1 <= n <= |edits| && t.field in Snapshot(edits[..1])
    ensures t.field in Snapshot(edits[..n]) && Followed(lib, edits, t.field, n) == Snapshot(edits[..n])[t.field]
  {
    hide Snapshot, ChangesAt, Follow;
    if n > 1 {
      ReportsReplay(lib, edits, t, n - 1);
      ReplayOne(lib, edits, t, n - 1, Followed(lib, edits, t.field, n - 1));
    }
  }

  lemma OnceOnly(lib: Difflib, edits: seq<Edit>, i: nat, t: Tracked)
    requires lib.Valid() && i < |edits| && t in TRACKED
    ensures var changes := ChangesAt(lib, edits, i);
      forall k, l | 0 <= k < l < |changes| :: changes[k].field == t.field ==> changes[l].field != t.field
  {
    TrackedDistinct();
    if i > 0 {
      ReportedExactly(lib, TRACKED, Snapshot(edits[..i]), Snapshot(edits[..i + 1]), Carriers(edits[..i]),
                      Carriers(edits[..i + 1]), t);
    }
  }

  /** A reported text change reads back the new text exactly when the cap drops none of its words. */
  lemma TextReportReads(lib: Difflib, edits: seq<Edit>, i: nat, t: Tracked, c: FieldChange)
    requires lib.Valid() && i < |edits| && t in TRACKED && c in ChangesAt(lib, edits, i) && c.field == t.field
    requires c.TextChange?
    ensures Read(New, c.segments) <= Words(c.after) && Read(Old, c.segments) <= Words(c.before)
    ensures Read(New, c.segments) == Words(c.after) <==>
              Loss(New, FullDiff(lib, Plain, c.before, c.after), MAX_SEGMENTS) == 0
    ensures Read(Old, c.segments) == Words(c.before) <==>
              Loss(Old, FullDiff(lib, Plain, c.before, c.after), MAX_SEGMENTS) == 0
  {
    ReportIsTransition(lib, edits, i, t, c);
    CappedDiffExact(lib, Plain, c.before, c.after, New, MAX_SEGMENTS);
    CappedDiffExact(lib, Plain, c.before, c.after, Old, MAX_SEGMENTS);
  }

  /** A reported text change shows as equal, deleted and inserted what the alignment keeps, removes and adds: all of it
      when the diff has at most 400 segments, and otherwise a prefix of each. Nothing is shown as moved. */
  lemma TextReportParts(lib: Difflib, edits: seq<Edit>, i: nat, t: Tracked, c: FieldChange)
    requires lib.Valid() && i < |edits| && t in TRACKED && c in ChangesAt(lib, edits, i) && c.field == t.field
    requires c.TextChange?
    ensures c.similarity == lib.wordRatio(Words(c.before), Words(c.after))
    ensures DiffSays(lib, Plain, 400, c.before, c.after, c.segments)
  {
    ReportIsTransition(lib, edits, i, t, c);
    hide FullDiff, ChangesAt, DiffSays;
    CappedSays(lib, Plain, 400, c.before, c.after);
  }

  lemma FieldKinds(t: Tracked)
    requires t in TRACKED
    ensures t.kind == FileField <==> t.field in ["pdf", "supplementary_material"]
    ensures t.kind == TextField <==> t.field in ["title", "abstract", "TLDR"]
  {
    var i :| 0 <= i < |TRACKED| && TRACKED[i] == t;
    assert |"pdf"| == 3 && |"supplementary_material"| == 22 && |"title"| == 5 && |"abstract"| == 8;
    assert |"keywords"| == 8 && "keywords"[0] != "abstract"[0];
    assert |"TLDR"| == 4 && |"primary_area"| == 12 && |"authors"| == 7;
  }

  /** What kind of report a change is, and what it says of a file, read off the two versions: files were replaced,
      added or removed by which of them holds one; titles, abstracts and summaries are diffed when both hold text. */
  lemma ReportSays(lib: Difflib, edits: seq<Edit>, i: nat, t: Tracked, c: FieldChange)
    requires lib.Valid() && i < |edits| && t in TRACKED && c in ChangesAt(lib, edits, i) && c.field == t.field
    ensures 0 < i && t.field in Snapshot(edits[..i]) && t.field in Snapshot(edits[..i + 1])
    ensures var before, after := Snapshot(edits[..i])[t.field], Snapshot(edits[..i + 1])[t.field];
            var had, has := before.Some? && before.value != "", after.Some? && after.value != "";
            && (c.FileChange? <==> t.field in ["pdf", "supplementary_material"])
            && (c.TextChange? <==> t.field in ["title", "abstract", "TLDR"] && had && has)
            && (c.FileChange? ==>
                  && (c.verb == Replaced <==> had && has)
                  && (c.verb == Added <==> !had && has)
                  && (c.verb == Removed <==> !has))
            && (c.TextChange? ==> Some(c.before) == before && Some(c.after) == after)
            && (c.ValueChange? ==> c.oldValue == before && c.newValue == after)
  {
    FieldKinds(t);
    hide Snapshot, Carriers, FullDiff, ChangesAt;
    ChangeIs(lib, edits, i, t, c);
  }

  /** The links of a file report: the file it ends with is fetched through the reporting edit itself, the file it starts
      from through the last earlier edit to mention the field, and where there is no file there is no link. */
  lemma FileReportFetches(lib: Difflib, edits: seq<Edit>, i: nat, t: Tracked, c: FieldChange)
    requires lib.Valid() && i < |edits| && t in TRACKED && t.kind == FileField && c in ChangesAt(lib, edits, i)
    requires c.field == t.field && DistinctIds(edits)
    ensures 0 < i && c.FileChange? && t.field in Snapshot(edits[..i]) && t.field in Snapshot(edits[..i + 1])
    ensures c.afterUrl == if Filled(Snapshot(edits[..i + 1])[t.field])
              then Some("https://api2.openreview.net/notes/edits/attachment?id=" + edits[i].id + "&name=" + t.field)
              else None
    ensures !Filled(Snapshot(edits[..i])[t.field]) ==> c.beforeUrl == None
    ensures Filled(Snapshot(edits[..i])[t.field]) ==>
              exists k: nat :: SetsLast(edits[..i], t.field, k) && c.beforeUrl ==
                Some("https://api2.openreview.net/notes/edits/attachment?id=" + edits[k].id + "&name=" + t.field)
  {
    ReportIsTransition(lib, edits, i, t, c);
    ReportDiffers(lib, edits, i, t, c);
    hide Snapshot, Carriers, ChangesAt;
    ReporterSets(edits, i, t.field);
    assert t.field in FileNames(TRACKED) && t.field in Names(TRACKED);
    hide TRACKED;
    assert edits[..i + 1][i] == edits[i];
    if Filled(Snapshot(edits[..i + 1])[t.field]) {
      SourceIsCarrier(edits[..i + 1], t.field);
      CarrierOfLast(edits[..i + 1], t.field, i);
    }
    if Filled(Snapshot(edits[..i])[t.field]) {
      LinkNamesCarrier(edits[..i], t.field);
    }
  }
}
