/** Listing the store: one strict total order, stable over every run (plugins/memory/src/local_store.rs). */
module Catalog {
  import opened Wrappers
  import opened Artifacts
  import opened FileNames
  import opened LocalStore
  import opened Ordering
  import Utf8

  /** compare_stored_records: the three derived keys, then the id. */
  predicate RecordLess(a: Record, b: Record) {
    Utf8.StringLess(a.sortKeys.scopeCapturedAtRecordId, b.sortKeys.scopeCapturedAtRecordId)
    || (a.sortKeys.scopeCapturedAtRecordId == b.sortKeys.scopeCapturedAtRecordId
        && (Utf8.StringLess(a.sortKeys.lifecycleStateRecordId, b.sortKeys.lifecycleStateRecordId)
            || (a.sortKeys.lifecycleStateRecordId == b.sortKeys.lifecycleStateRecordId
                && Utf8.StringLess(a.recordId, b.recordId))))
  }

  /** A directory listing: the file names, each once, in whatever order the file system gives them. */
  ghost predicate IsListing(files: Files, names: seq<string>) {
    Distinct(names) && forall name :: name in names <==> name in files
  }

  function Read(files: Files, names: seq<string>): (rs: seq<Record>)
    requires forall name :: name in names ==> name in files
    ensures |rs| == |names| && forall i :: 0 <= i < |names| ==> rs[i] == files[names[i]]
  {
    if names == [] then [] else [files[names[0]]] + Read(files, names[1..])
  }

  /** The records of the store in catalog order. */
  function Collected(files: Files, names: seq<string>): seq<Record>
    requires forall name :: name in names ==> name in files
  {
    Sort(RecordLess, Read(files, names))
  }

  /** collect_records: read every artifact, then sort. */
  method CollectRecords(files: Files, names: seq<string>) returns (records: seq<Record>)
    requires forall name :: name in names ==> name in files
    ensures records == Collected(files, names)
  {
    hide Sort, RecordLess, Read;
    var stored: seq<Record> := [];
    for i := 0 to |names|
      invariant |stored| == i && forall k :: 0 <= k < i ==> stored[k] == files[names[k]]
    {
      stored := stored + [files[names[i]]];
    }
    assert stored == Read(files, names);
    records := Sort(RecordLess, stored);
  }

  function StateFilter(options: QueryOptions): Record -> bool {
    (r: Record) => options.IncludesState(r.localLifecycle.state)
  }

  /** list_records, before each record is turned into a catalog entry. */
  function ListRecords(files: Files, names: seq<string>, options: QueryOptions): seq<Record>
    requires forall name :: name in names ==> name in files
  {
    Filter(StateFilter(options), Collected(files, names))
  }

  // ----- the first key determines its parts

  lemma {:induction false} FirstBar(a: string, x: string, b: string, y: string)
    requires '|' !in a && '|' !in b && a + "|" + x == b + "|" + y
    ensures a == b && x == y
  {
    var s := a + "|" + x;
    assert s[|a|] == '|' && s[|b|] == '|';
    assert forall i :: 0 <= i < |a| ==> s[i] == a[i];
    assert forall i :: 0 <= i < |b| ==> s[i] == b[i];
    assert s[..|a|] == a && s[|a| + 1..] == x;
    assert s[..|b|] == b && s[|b| + 1..] == y;
  }

  /** A key scope|timestamp|id determines the scope, the timestamp and the id, even when the id contains '|'. */
  lemma KeyDeterminesParts(s: SessionContextScope, t: string, id: string, s': SessionContextScope, t': string, id': string)
    requires '|' !in t && '|' !in t'
    ensures Join(s.AsStr(), t, id) == Join(s'.AsStr(), t', id') ==> s == s' && t == t' && id == id'
  {
    if Join(s.AsStr(), t, id) == Join(s'.AsStr(), t', id') {
      assert Join(s.AsStr(), t, id) == s.AsStr() + "|" + (t + "|" + id);
      assert Join(s'.AsStr(), t', id') == s'.AsStr() + "|" + (t' + "|" + id');
      FirstBar(s.AsStr(), t + "|" + id, s'.AsStr(), t' + "|" + id');
      FirstBar(t, id, t', id');
      ScopeNames(s, s');
    }
  }

  lemma ScopeNames(s: SessionContextScope, s': SessionContextScope)
    ensures s.AsStr() == s'.AsStr() ==> s == s'
  {
  }

  lemma ValidKey(clock: Clock, r: Record)
    requires clock.Sane() && Valid(clock, r)
    ensures SortTimestamp(clock, r.provenance).Ok? && '|' !in SortTimestamp(clock, r.provenance).value
    ensures r.sortKeys.scopeCapturedAtRecordId ==
            Join(r.sessionContext.scope.AsStr(), SortTimestamp(clock, r.provenance).value, r.recordId)
  {
    hide ValidateContext, ValidateProvenance, ValidateLifecycle, Join;
    TimestampFits(clock, r.provenance);
  }

  /** Records with different ids differ in their first key, so the other keys never decide. */
  lemma FirstKeyDecides(clock: Clock, a: Record, b: Record)
    requires clock.Sane() && Valid(clock, a) && Valid(clock, b) && a.recordId != b.recordId
    ensures a.sortKeys.scopeCapturedAtRecordId != b.sortKeys.scopeCapturedAtRecordId
    ensures RecordLess(a, b) <==> Utf8.StringLess(a.sortKeys.scopeCapturedAtRecordId, b.sortKeys.scopeCapturedAtRecordId)
  {
    hide Valid, Join, Clock.Sane, SortTimestamp, Utf8.StringLess;
    ValidKey(clock, a);
    ValidKey(clock, b);
    KeyDeterminesParts(a.sessionContext.scope, SortTimestamp(clock, a.provenance).value, a.recordId,
                       b.sessionContext.scope, SortTimestamp(clock, b.provenance).value, b.recordId);
  }

  // ----- catalog order is a strict total order on the store

  lemma RecordLessTotal(clock: Clock, a: Record, b: Record)
    requires clock.Sane() && Valid(clock, a) && Valid(clock, b)
    ensures !RecordLess(a, a)
    ensures a.recordId != b.recordId ==> RecordLess(a, b) || RecordLess(b, a)
  {
    hide Valid, Utf8.StringLess;
    var k := a.sortKeys;
    Utf8.StringLessTotal(k.scopeCapturedAtRecordId, k.scopeCapturedAtRecordId);
    Utf8.StringLessTotal(k.lifecycleStateRecordId, k.lifecycleStateRecordId);
    Utf8.StringLessTotal(a.recordId, a.recordId);
    if a.recordId != b.recordId {
      FirstKeyDecides(clock, a, b);
      FirstKeyDecides(clock, b, a);
      Utf8.StringLessTotal(k.scopeCapturedAtRecordId, b.sortKeys.scopeCapturedAtRecordId);
    }
  }

  lemma RecordLessTransitive(a: Record, b: Record, c: Record)
    requires RecordLess(a, b) && RecordLess(b, c)
    ensures RecordLess(a, c)
  {
    hide Utf8.StringLess;
    Chain(a.sortKeys.scopeCapturedAtRecordId, b.sortKeys.scopeCapturedAtRecordId, c.sortKeys.scopeCapturedAtRecordId);
    Chain(a.sortKeys.lifecycleStateRecordId, b.sortKeys.lifecycleStateRecordId, c.sortKeys.lifecycleStateRecordId);
    Chain(a.recordId, b.recordId, c.recordId);
  }

  lemma Chain(a: string, b: string, c: string)
    ensures Utf8.StringLess(a, b) && Utf8.StringLess(b, c) ==> Utf8.StringLess(a, c)
  {
    if Utf8.StringLess(a, b) && Utf8.StringLess(b, c) {
      Utf8.StringLessTransitive(a, b, c);
    }
  }

  ghost predicate DistinctRecords(clock: Clock, rs: seq<Record>) {
    && (forall r :: r in rs ==> Valid(clock, r))
    && (forall i, j :: 0 <= i < j < |rs| ==> rs[i].recordId != rs[j].recordId)
  }

  lemma CatalogOrderIsTotal(clock: Clock, rs: seq<Record>)
    requires clock.Sane() && DistinctRecords(clock, rs)
    ensures StrictTotalOn(RecordLess, rs) && Distinct(rs)
  {
    hide Valid, RecordLess, Clock.Sane;
    forall a, b | a in rs && b in rs ensures !RecordLess(a, a) && (a == b || RecordLess(a, b) || RecordLess(b, a)) {
      RecordLessTotal(clock, a, b);
    }
    forall a, b, c | a in rs && b in rs && c in rs && RecordLess(a, b) && RecordLess(b, c) ensures RecordLess(a, c) {
      RecordLessTransitive(a, b, c);
    }
  }

  lemma ReadIsDistinct(clock: Clock, files: Files, names: seq<string>)
    requires Consistent(clock, files) && IsListing(files, names)
    ensures DistinctRecords(clock, Read(files, names))
    ensures forall r :: r in Read(files, names) <==> ArtifactFileName(r.recordId) in files && files[ArtifactFileName(r.recordId)] == r
  {
    hide Valid, ArtifactFileName, Read;
    var rs := Read(files, names);
    forall i, j | 0 <= i < j < |rs| ensures rs[i].recordId != rs[j].recordId {
      assert names[i] != names[j] && names[i] in names && names[j] in names;
    }
    forall i | 0 <= i < |rs| ensures Valid(clock, rs[i]) && names[i] == ArtifactFileName(rs[i].recordId) && names[i] in files {
      assert names[i] in names;
    }
    forall r: Record | ArtifactFileName(r.recordId) in files && files[ArtifactFileName(r.recordId)] == r ensures r in rs {
      assert ArtifactFileName(r.recordId) in names;
      var i :| 0 <= i < |names| && names[i] == ArtifactFileName(r.recordId);
      assert rs[i] == r;
    }
  }

  /** The catalog is the store's records in strictly increasing order, whatever order the directory is read in. */
  lemma CatalogIsSorted(clock: Clock, files: Files, names: seq<string>)
    requires clock.Sane() && Consistent(clock, files) && IsListing(files, names)
    ensures Sorted(RecordLess, Collected(files, names)) && StrictTotalOn(RecordLess, Collected(files, names))
    ensures forall r :: r in Collected(files, names) <==>
                        ArtifactFileName(r.recordId) in files && files[ArtifactFileName(r.recordId)] == r
  {
    hide Valid, ArtifactFileName, RecordLess, Sort, Clock.Sane, Consistent, Read;
    var rs := Read(files, names);
    ReadIsDistinct(clock, files, names);
    CatalogOrderIsTotal(clock, rs);
    SortSorts(RecordLess, rs);
    SameMembers(Sort(RecordLess, rs), rs);
    StrictTotalSubset(RecordLess, Sort(RecordLess, rs), rs);
  }

  lemma CatalogIgnoresListingOrder(clock: Clock, files: Files, names: seq<string>, names': seq<string>)
    requires clock.Sane() && Consistent(clock, files) && IsListing(files, names) && IsListing(files, names')
    ensures Collected(files, names) == Collected(files, names')
  {
    hide Valid, ArtifactFileName, RecordLess, Collected, Clock.Sane, Consistent, StrictTotalOn, Sorted;
    CatalogIsSorted(clock, files, names);
    CatalogIsSorted(clock, files, names');
    SortedUnique(RecordLess, Collected(files, names), Collected(files, names'));
  }

  /** Every filtered listing is a subsequence of the full one, and is itself strictly sorted. */
  lemma FilteredListing(clock: Clock, files: Files, names: seq<string>, options: QueryOptions)
    requires clock.Sane() && Consistent(clock, files) && IsListing(files, names)
    ensures IsSubsequence(ListRecords(files, names, options), ListRecords(files, names, QueryOptions(true, true)))
    ensures Sorted(RecordLess, ListRecords(files, names, options))
  {
    hide Valid, RecordLess, Collected, Clock.Sane, Consistent, StrictTotalOn;
    CatalogIsSorted(clock, files, names);
    FilterIsSubsequence(StateFilter(options), Collected(files, names));
    FilterSorted(RecordLess, StateFilter(options), Collected(files, names));
    FilterEverything(StateFilter(QueryOptions(true, true)), Collected(files, names));
  }

  /** Which records a listing holds: active ones, and superseded or buried ones where asked for. */
  lemma ListedExactly(clock: Clock, files: Files, names: seq<string>, superseded: bool, tombstoned: bool, r: Record)
    requires clock.Sane() && Consistent(clock, files) && IsListing(files, names)
    ensures r in ListRecords(files, names, QueryOptions(superseded, tombstoned)) <==>
      && (exists name :: name in files && files[name] == r)
      && (r.localLifecycle.state == Superseded ==> superseded) && (r.localLifecycle.state == Tombstoned ==> tombstoned)
  {
    hide Valid, RecordLess, Collected, Clock.Sane, Consistent, StrictTotalOn, Sorted, ArtifactFileName, Filter;
    CatalogIsSorted(clock, files, names);
    FilterMembers(StateFilter(QueryOptions(superseded, tombstoned)), Collected(files, names));
    if name :| name in files && files[name] == r {
      NamedByItsId(clock, files, name);
    }
  }

  lemma NamedByItsId(clock: Clock, files: Files, name: string)
    requires Consistent(clock, files) && name in files
    ensures name == ArtifactFileName(files[name].recordId)
  {
  }

  lemma {:induction false} FilterEverything(p: Record -> bool, rs: seq<Record>)
    requires forall r :: p(r)
    ensures Filter(p, rs) == rs
  {
    if rs != [] {
      FilterEverything(p, rs[1..]);
    }
  }

  // ----- lookup agrees with the index

  /** show_record succeeds exactly for the listed ids, and answers the listed record. */
  lemma ShowAgreesWithList(clock: Clock, files: Files, names: seq<string>, options: QueryOptions, id: string)
    requires clock.Sane() && Consistent(clock, files) && IsListing(files, names)
    ensures Show(files, id, options).Ok? <==> exists r :: r in ListRecords(files, names, options) && r.recordId == id
    ensures Show(files, id, options).Ok? ==>
      Show(files, id, options).value in ListRecords(files, names, options) && Show(files, id, options).value.recordId == id
  {
    hide Valid, RecordLess, Collected, Clock.Sane, ArtifactFileName;
    var listed := ListRecords(files, names, options);
    CatalogIsSorted(clock, files, names);
    FilterMembers(StateFilter(options), Collected(files, names));
    var path := ArtifactFileName(id);
    if path in files {
      ArtifactFileNameInjective(files[path].recordId, id);
    }
  }

  // ----- catalog order over whole runs

  /** No run changes the relative position of two records. */
  lemma RunKeepsOrder(clock: Clock, a: Record, b: Record, a': Record, b': Record)
    requires clock.Sane() && Valid(clock, a) && Valid(clock, b) && Valid(clock, a') && Valid(clock, b')
    requires Descends(a, a') && Descends(b, b') && a.recordId != b.recordId
    ensures RecordLess(a, b) <==> RecordLess(a', b')
  {
    hide Valid, RecordLess, Clock.Sane;
    FirstKeyDecides(clock, a, b);
    FirstKeyDecides(clock, a', b');
  }

  function RecordIds(rs: seq<Record>): (ids: seq<string>)
    ensures |ids| == |rs| && forall i :: 0 <= i < |rs| ==> ids[i] == rs[i].recordId
  {
    if rs == [] then [] else [rs[0].recordId] + RecordIds(rs[1..])
  }

  function KnownTo(files: Files): Record -> bool {
    (r: Record) => ArtifactFileName(r.recordId) in files
  }

  /** What became of a record in the later store. */
  function Update(later: Files, r: Record): Record {
    var name := ArtifactFileName(r.recordId);
    if name in later then later[name] else r
  }

  /** The earlier catalog's records, as the later store has them. */
  function Updated(later: Files, rs: seq<Record>): (us: seq<Record>)
    ensures |us| == |rs| && forall i :: 0 <= i < |rs| ==> us[i] == Update(later, rs[i])
  {
    seq(|rs|, i requires 0 <= i < |rs| => Update(later, rs[i]))
  }

  /** later extends files: no record is lost, and each descends from what it was. */
  ghost predicate Extends(clock: Clock, files: Files, later: Files) {
    && Consistent(clock, files) && Consistent(clock, later)
    && forall name :: name in files ==> name in later && Descends(files[name], later[name])
  }

  /** rs lists exactly the records of files. */
  ghost predicate ListsAll(files: Files, rs: seq<Record>) {
    forall r :: r in rs <==> ArtifactFileName(r.recordId) in files && files[ArtifactFileName(r.recordId)] == r
  }

  lemma UpdatedAt(clock: Clock, files: Files, later: Files, rs: seq<Record>, i: nat)
    requires Extends(clock, files, later) && ListsAll(files, rs) && i < |rs|
    ensures ArtifactFileName(rs[i].recordId) in later
    ensures Descends(rs[i], later[ArtifactFileName(rs[i].recordId)])
    ensures later[ArtifactFileName(rs[i].recordId)].recordId == rs[i].recordId
    ensures Valid(clock, rs[i]) && Valid(clock, later[ArtifactFileName(rs[i].recordId)])
  {
    hide Valid, ArtifactFileName;
    assert rs[i] in rs;
  }

  lemma UpdatedIsSorted(clock: Clock, files: Files, later: Files, rs: seq<Record>)
    requires clock.Sane() && Extends(clock, files, later) && ListsAll(files, rs)
    requires Sorted(RecordLess, rs) && StrictTotalOn(RecordLess, rs)
    ensures Sorted(RecordLess, Updated(later, rs))
    ensures RecordIds(Updated(later, rs)) == RecordIds(rs)
  {
    hide Valid, RecordLess, Clock.Sane, ArtifactFileName, Extends, Descends, Updated, RecordIds, ListsAll;
    var us := Updated(later, rs);
    forall i | 0 <= i < |us| ensures us[i].recordId == rs[i].recordId {
      UpdatedAt(clock, files, later, rs, i);
    }
    forall i, j | 0 <= i < j < |us| ensures RecordLess(us[i], us[j]) {
      assert RecordLess(rs[i], rs[j]) && rs[i] != rs[j];
      UpdatedAt(clock, files, later, rs, i);
      UpdatedAt(clock, files, later, rs, j);
      ListedIdsDiffer(files, rs, i, j);
      RunKeepsOrder(clock, rs[i], rs[j], us[i], us[j]);
    }
  }

  lemma ListedIdsDiffer(files: Files, rs: seq<Record>, i: nat, j: nat)
    requires ListsAll(files, rs) && i < |rs| && j < |rs| && rs[i] != rs[j]
    ensures rs[i].recordId != rs[j].recordId
  {
  }

  lemma UpdatedMembers(clock: Clock, files: Files, later: Files, rs: seq<Record>)
    requires Extends(clock, files, later) && ListsAll(files, rs)
    ensures forall u :: u in Updated(later, rs) <==>
              ArtifactFileName(u.recordId) in files && later[ArtifactFileName(u.recordId)] == u
  {
    hide Valid, ArtifactFileName, Updated;
    var us := Updated(later, rs);
    forall i | 0 <= i < |us| ensures us[i].recordId == rs[i].recordId && ArtifactFileName(us[i].recordId) in files {
      UpdatedAt(clock, files, later, rs, i);
      assert rs[i] in rs;
    }
    forall u: Record | ArtifactFileName(u.recordId) in files && later[ArtifactFileName(u.recordId)] == u ensures u in us {
      var r := files[ArtifactFileName(u.recordId)];
      assert Descends(r, u) && r in rs;
      var i :| 0 <= i < |rs| && rs[i] == r;
      assert us[i] == u;
    }
  }

  /**
   * Over every run, the later catalog restricted to the records that were there before lists the same ids in the
   * same order as the earlier catalog.
   */
  lemma RunKeepsCatalogOrder(clock: Clock, files: Files, names: seq<string>, ops: seq<Op>, laterNames: seq<string>)
    requires clock.Sane() && Consistent(clock, files) && SuccessorsPresent(files) && Admitted(ops)
    requires IsListing(files, names) && IsListing(RunOps(clock, files, ops), laterNames)
    ensures RecordIds(Filter(KnownTo(files), Collected(RunOps(clock, files, ops), laterNames))) ==
            RecordIds(Collected(files, names))
  {
    hide Valid, RecordLess, Clock.Sane, ArtifactFileName, Consistent, Collected, Sorted, StrictTotalOn, RunOps,
      SuccessorsPresent, Descends, RecordIds;
    var later := RunOps(clock, files, ops);
    RunKeepsEverything(clock, files, ops);
    CatalogIsSorted(clock, files, names);
    CatalogIsSorted(clock, later, laterNames);
    var earlier := Collected(files, names);
    UpdatedIsSorted(clock, files, later, earlier);
    UpdatedMembers(clock, files, later, earlier);
    var known := Filter(KnownTo(files), Collected(later, laterNames));
    FilterSorted(RecordLess, KnownTo(files), Collected(later, laterNames));
    FilterMembers(KnownTo(files), Collected(later, laterNames));
    StrictTotalSubset(RecordLess, known, Collected(later, laterNames));
    SortedUnique(RecordLess, known, Updated(later, earlier));
  }
}
