/** The diagnostics collection (tsc/internal/ast/diagnostic.go) against a plain list of what was added. */
module DiagnosticsCollections {
  import opened Ordering
  import opened Options
  import opened DiagnosticOrder
  import opened DiagnosticKeys
  import opened StableSort

  datatype LocationKey = LocationKey(path: string, loc: TextRange, code: int)

  function PathOf(d: Diagnostic): string {
    if d.file.Some? then d.file.value.path else ""
  }

  function KeyOf(d: Diagnostic): LocationKey {
    LocationKey(PathOf(d), d.loc, d.code)
  }

  /** CompareDiagnostics as the comparator handed to the slices functions. */
  function CompareDiagnostics(d1: Diagnostic, d2: Diagnostic): int {
    Compare(d1, d2)
  }

  lemma CompareIsLawful()
    ensures TotalPreorder(CompareDiagnostics)
  {
    forall a, b, c ensures Lawful(CompareDiagnostics, a, b, c) {
      CompareAntisymmetric(a, b);
      CompareCoherent(a, b, c);
    }
  }

  // ---------- the specification: one list, in insertion order ----------

  /** A way of choosing some of the stored diagnostics. */
  datatype Selector =
    | AtKey(key: LocationKey)
    | InFile(path: string)
    | InFiles(paths: set<string>)
    | Global

  predicate Selects(sel: Selector, d: Diagnostic) {
    match sel
    case AtKey(key) => KeyOf(d) == key
    case InFile(path) => d.file.Some? && d.file.value.path == path
    case InFiles(paths) => d.file.Some? && d.file.value.path in paths
    case Global => d.file.None?
  }

  function Select(log: seq<Diagnostic>, sel: Selector): seq<Diagnostic> {
    if log == [] then []
    else Select(log[..|log| - 1], sel) + if Selects(sel, log[|log| - 1]) then [log[|log| - 1]] else []
  }

  function FirstEqual(s: seq<Diagnostic>, d: Diagnostic): Option<Diagnostic> {
    if s == [] then None
    else if Equal(s[0], d) then Some(s[0])
    else FirstEqual(s[1..], d)
  }

  /** The stored diagnostic that makes d a duplicate, if there is one. */
  function Duplicate(log: seq<Diagnostic>, d: Diagnostic): Option<Diagnostic> {
    FirstEqual(Select(log, AtKey(KeyOf(d))), d)
  }

  function Record(log: seq<Diagnostic>, d: Diagnostic): seq<Diagnostic> {
    if Duplicate(log, d).Some? then log else log + [d]
  }

  function BucketOf(d: Diagnostic): Selector {
    if d.file.Some? then InFile(d.file.value.path) else Global
  }

  /** The earliest-added stored diagnostic of d's file that compares equal to d. */
  ghost function Earliest(log: seq<Diagnostic>, d: Diagnostic): Option<Diagnostic> {
    var t := Tied(Select(log, BucketOf(d)), d, CompareDiagnostics);
    if t == [] then None else Some(t[0])
  }

  lemma SelectAppend(log: seq<Diagnostic>, d: Diagnostic, sel: Selector)
    ensures Selects(sel, d) ==> Select(log + [d], sel) == Select(log, sel) + [d]
    ensures !Selects(sel, d) ==> Select(log + [d], sel) == Select(log, sel)
  {
    assert (log + [d])[..|log|] == log;
  }

  lemma {:induction false} SelectMembers(log: seq<Diagnostic>, sel: Selector)
    ensures forall d :: d in Select(log, sel) <==> d in log && Selects(sel, d)
  {
    if log != [] {
      SelectMembers(log[..|log| - 1], sel);
      assert log == log[..|log| - 1] + [log[|log| - 1]];
    }
  }

  lemma {:induction false} FirstEqualMembers(s: seq<Diagnostic>, d: Diagnostic)
    ensures FirstEqual(s, d).Some? ==> FirstEqual(s, d).value in s && Equal(FirstEqual(s, d).value, d)
    ensures FirstEqual(s, d).None? ==> forall e :: e in s ==> !Equal(e, d)
  {
    if s != [] && !Equal(s[0], d) { FirstEqualMembers(s[1..], d); }
  }

  lemma {:induction false} FirstEqualAppend(s: seq<Diagnostic>, t: seq<Diagnostic>, d: Diagnostic)
    ensures FirstEqual(s + t, d) == if FirstEqual(s, d).Some? then FirstEqual(s, d) else FirstEqual(t, d)
  {
    if s == [] {
      assert s + t == t;
    } else {
      assert (s + t)[1..] == s[1..] + t;
      FirstEqualAppend(s[1..], t, d);
    }
  }

  // ---------- what the specification means when files are identified by their names ----------

  ghost predicate SameFileName(d: Diagnostic, e: Diagnostic) {
    d.file.Some? && e.file.Some? && d.file.value.fileName == e.file.value.fileName
  }

  /** Equal file names have equal paths, and only a diagnostic without a file has the empty name. */
  ghost predicate FilesNamed(s: seq<Diagnostic>) {
    && (forall d :: d in s && d.file.Some? ==> d.file.value.fileName != "")
    && (forall d, e :: d in s && e in s && SameFileName(d, e) ==> PathOf(d) == PathOf(e))
  }

  lemma ComparesZeroOnlyInItsBucket(s: seq<Diagnostic>, d: Diagnostic, e: Diagnostic)
    requires FilesNamed(s) && d in s && e in s && Compare(e, d) == 0
    ensures Selects(BucketOf(d), e) && PathOf(d) == PathOf(e)
  {
    CompareStringsZero(DiagnosticPath(e), DiagnosticPath(d));
    assert d.file.Some? && e.file.Some? ==> SameFileName(d, e);
  }

  lemma {:induction false} DuplicateAmong(log: seq<Diagnostic>, d: Diagnostic, all: seq<Diagnostic>)
    requires FilesNamed(all) && d in all && forall e :: e in log ==> e in all
    ensures FirstEqual(Select(log, AtKey(KeyOf(d))), d) == FirstEqual(log, d)
  {
    if log != [] {
      var init, last := log[..|log| - 1], log[|log| - 1];
      assert log == init + [last];
      DuplicateAmong(init, d, all);
      FirstEqualAppend(init, [last], d);
      FirstEqualAppend(Select(init, AtKey(KeyOf(d))), if KeyOf(last) == KeyOf(d) then [last] else [], d);
      if Equal(last, d) {
        EqualImpliesCompareZero(last, d);
        ComparesZeroOnlyInItsBucket(all, d, last);
      }
    }
  }

  /** The hash index finds what a scan of everything stored would find. */
  lemma DuplicateIsFirstEqual(log: seq<Diagnostic>, d: Diagnostic)
    requires FilesNamed(log + [d])
    ensures Duplicate(log, d) == FirstEqual(log, d)
    ensures Record(log, d) == if exists e :: e in log && Equal(e, d) then log else log + [d]
  {
    DuplicateAmong(log, d, log + [d]);
    FirstEqualMembers(log, d);
  }

  lemma {:induction false} TiedInBucket(log: seq<Diagnostic>, d: Diagnostic, all: seq<Diagnostic>)
    requires FilesNamed(all) && d in all && forall e :: e in log ==> e in all
    ensures Tied(Select(log, BucketOf(d)), d, CompareDiagnostics) == Tied(log, d, CompareDiagnostics)
  {
    if log != [] {
      var init, last := log[..|log| - 1], log[|log| - 1];
      TiedInBucket(init, d, all);
      assert log == init + [last];
      SelectAppend(init, last, BucketOf(d));
      if Selects(BucketOf(d), last) {
        TiedAppend(Select(init, BucketOf(d)), last, d, CompareDiagnostics);
      } else if Compare(last, d) == 0 {
        ComparesZeroOnlyInItsBucket(all, d, last);
      }
    }
  }

  /** Lookup answers with the earliest-added of all stored diagnostics comparing 0, or none if there is no such e. */
  lemma EarliestOfAll(log: seq<Diagnostic>, d: Diagnostic, e: Diagnostic)
    requires FilesNamed(log + [d])
    ensures e in log && CompareDiagnostics(e, d) == 0 ==> Earliest(log, d).Some?
    ensures var tied := Tied(log, d, CompareDiagnostics);
      Earliest(log, d).Some? ==>
        && tied != [] && Earliest(log, d).value == tied[0]
        && tied[0] in log && CompareDiagnostics(tied[0], d) == 0
  {
    TiedInBucket(log, d, log + [d]);
    TiedMembers(log, d, CompareDiagnostics);
    var tied := Tied(log, d, CompareDiagnostics);
    if tied != [] { assert tied[0] in tied; }
    if e in log && CompareDiagnostics(e, d) == 0 { assert e in tied; }
  }

  // ---------- what equality and order mean for the stored diagnostics ----------

  /** A diagnostic is a duplicate exactly if one of its path is stored that looks the same without addresses. */
  lemma DuplicateIffSeen(log: seq<Diagnostic>, d: Diagnostic)
    ensures Duplicate(log, d).Some? <==> exists e :: e in log && PathOf(e) == PathOf(d) && See(e) == See(d)
    ensures Duplicate(log, d).Some? ==>
      && Duplicate(log, d).value in log && PathOf(Duplicate(log, d).value) == PathOf(d)
      && See(Duplicate(log, d).value) == See(d)
  {
    hide Equal, Select, FirstEqual;
    var same := Select(log, AtKey(KeyOf(d)));
    FirstEqualMembers(same, d);
    SelectMembers(log, AtKey(KeyOf(d)));
    forall e ensures Equal(e, d) <==> See(e) == See(d) { EqualIffSeen(e, d); }
    forall e | e in log && PathOf(e) == PathOf(d) && See(e) == See(d) ensures e in same {
      assert KeyOf(e) == KeyOf(d);
    }
  }

  /** A copy of a stored diagnostic, at any addresses, is answered with the stored one and changes nothing. */
  lemma CopyIsNotStored(log: seq<Diagnostic>, d: Diagnostic, copy: Diagnostic)
    requires NoDuplicates(log) && d in log && Forget(copy) == Forget(d)
    ensures Duplicate(log, copy) == Some(d) && Record(log, copy) == log
  {
    hide Equal, Select, FirstEqual, Forget, NoDuplicates, Duplicate, SeeAll, SeeChain;
    CopyIsEqual(copy, d);
    EqualIffSeen(copy, d);
    DuplicateIffSeen(log, copy);
    var e := Duplicate(log, copy).value;
    EqualIffSeen(e, d);
    EqualIffSeen(d, e);
    assert KeyOf(e) == KeyOf(d);
    if e != d { StoredAreDistinct(log, e, d); }
  }

  lemma StoredAreDistinct(log: seq<Diagnostic>, d: Diagnostic, e: Diagnostic)
    requires NoDuplicates(log) && d in log && e in log && d != e
    ensures Distinct(d, e) || Distinct(e, d)
  {
    hide Distinct;
    var i :| 0 <= i < |log| && log[i] == d;
    var j :| 0 <= j < |log| && log[j] == e;
    assert if i < j then Distinct(log[i], log[j]) else Distinct(log[j], log[i]);
  }

  /** Ascending by file name, then position, then end, then code; and no later diagnostic has smaller keys. */
  ghost predicate InOrder(list: seq<Diagnostic>) {
    forall i, j :: 0 <= i < j < |list| ==>
      NotBehind(list[i], list[j]) && !KeysLess(Keys(list[j]), Keys(list[i]))
  }

  lemma SortedIsInOrder(list: seq<Diagnostic>)
    requires Sorted(list, CompareDiagnostics)
    ensures InOrder(list)
  {
    hide Compare, NotBehind, KeysLess, Keys;
    forall i, j | 0 <= i < j < |list|
      ensures NotBehind(list[i], list[j]) && !KeysLess(Keys(list[j]), Keys(list[i])) {
      assert CompareDiagnostics(list[i], list[j]) <= 0;
      OrderedIsNotBehind(list[i], list[j]);
      CompareAntisymmetric(list[i], list[j]);
      CompareIsByKeys(list[j], list[i]);
    }
  }

  lemma SortIsInOrder(s: seq<Diagnostic>)
    ensures InOrder(Sort(s, CompareDiagnostics))
  {
    hide InOrder, Sort, Sorted;
    CompareIsLawful();
    SortIsSortedPermutation(s, CompareDiagnostics);
    SortedIsInOrder(Sort(s, CompareDiagnostics));
  }

  // ---------- what every sequence of additions keeps ----------

  ghost predicate NoDuplicates(log: seq<Diagnostic>) {
    forall i, j :: 0 <= i < j < |log| ==> Distinct(log[i], log[j])
  }

  ghost predicate Distinct(d: Diagnostic, e: Diagnostic) {
    KeyOf(d) == KeyOf(e) ==> !Equal(d, e)
  }

  lemma RecordKeepsNoDuplicates(log: seq<Diagnostic>, d: Diagnostic)
    requires NoDuplicates(log)
    ensures NoDuplicates(Record(log, d))
  {
    var same := Select(log, AtKey(KeyOf(d)));
    FirstEqualMembers(same, d);
    SelectMembers(log, AtKey(KeyOf(d)));
  }

  /** Under FilesNamed no two stored diagnostics are Equal, wherever they are stored. */
  lemma NoDuplicatesAnywhere(log: seq<Diagnostic>, i: nat, j: nat)
    requires NoDuplicates(log) && FilesNamed(log) && i < j < |log|
    ensures !Equal(log[i], log[j])
  {
    assert Distinct(log[i], log[j]);
    if Equal(log[i], log[j]) {
      EqualImpliesCompareZero(log[i], log[j]);
      ComparesZeroOnlyInItsBucket(log, log[j], log[i]);
    }
  }

  lemma {:induction false} SelectSplitsByFile(log: seq<Diagnostic>, paths: set<string>, p: string)
    requires p !in paths
    ensures multiset(Select(log, InFiles(paths + {p}))) ==
            multiset(Select(log, InFiles(paths))) + multiset(Select(log, InFile(p)))
  {
    if log != [] { SelectSplitsByFile(log[..|log| - 1], paths, p); }
  }

  lemma {:induction false} SelectNoFile(log: seq<Diagnostic>)
    ensures Select(log, InFiles({})) == []
  {
    if log != [] { SelectNoFile(log[..|log| - 1]); }
  }

  lemma {:induction false} SelectAllFiles(log: seq<Diagnostic>, paths: set<string>)
    requires forall d :: d in log && d.file.Some? ==> d.file.value.path in paths
    ensures multiset(log) == multiset(Select(log, Global)) + multiset(Select(log, InFiles(paths)))
  {
    if log != [] {
      var init, last := log[..|log| - 1], log[|log| - 1];
      assert log == init + [last];
      SelectAllFiles(init, paths);
      assert multiset(log) == multiset(init) + multiset{last};
      assert Selects(Global, last) != Selects(InFiles(paths), last);
    }
  }

  /** A list holds its part of the log, already sorted or to be sorted later. */
  ghost predicate Holds(list: seq<Diagnostic>, sorted: bool, log: seq<Diagnostic>, sel: Selector) {
    && Sort(list, CompareDiagnostics) == Sort(Select(log, sel), CompareDiagnostics)
    && (sorted ==> list == Sort(Select(log, sel), CompareDiagnostics))
  }

  /** Appending an addition, with the sorted flag cleared, keeps a list in step with the log. */
  lemma AppendHolds(list: seq<Diagnostic>, sorted: bool, log: seq<Diagnostic>, d: Diagnostic, sel: Selector)
    requires Holds(list, sorted, log, sel)
    ensures Selects(sel, d) ==> Holds(list + [d], false, log + [d], sel)
    ensures !Selects(sel, d) ==> Holds(list, sorted, log + [d], sel)
  {
    SelectAppend(log, d, sel);
    SortAppend(list, d, CompareDiagnostics);
    SortAppend(Select(log, sel), d, CompareDiagnostics);
  }

  function ListAt<K>(lists: map<K, seq<Diagnostic>>, k: K): seq<Diagnostic> {
    if k in lists then lists[k] else []
  }

  /** Every file's list holds that file's part of the log. */
  ghost predicate FilesHeld(lists: map<string, seq<Diagnostic>>, sorted: set<string>, log: seq<Diagnostic>) {
    forall path :: Holds(ListAt(lists, path), path in sorted, log, InFile(path))
  }

  /** Everything entered under a key: the first diagnostic, then the collisions. */
  ghost function Bucket(
    index: map<LocationKey, Diagnostic>, collisions: map<LocationKey, seq<Diagnostic>>,
    key: LocationKey): seq<Diagnostic>
  {
    (if key in index then [index[key]] else []) + ListAt(collisions, key)
  }

  ghost predicate Indexed(
    index: map<LocationKey, Diagnostic>, collisions: map<LocationKey, seq<Diagnostic>>, log: seq<Diagnostic>)
  {
    && (forall key :: Bucket(index, collisions, key) == Select(log, AtKey(key)))
    && collisions.Keys <= index.Keys
  }

  lemma FileAdditionHeld(lists: map<string, seq<Diagnostic>>, sorted: set<string>, log: seq<Diagnostic>, d: Diagnostic)
    requires FilesHeld(lists, sorted, log) && d.file.Some?
    ensures var path := d.file.value.path;
      FilesHeld(lists[path := ListAt(lists, path) + [d]], sorted - {path}, log + [d])
  {
    hide Holds;
    var path := d.file.value.path;
    forall p
      ensures Holds(ListAt(lists[path := ListAt(lists, path) + [d]], p), p in sorted - {path}, log + [d], InFile(p)) {
      AppendHolds(ListAt(lists, p), p in sorted, log, d, InFile(p));
    }
  }

  lemma GlobalAdditionHeld(lists: map<string, seq<Diagnostic>>, sorted: set<string>, log: seq<Diagnostic>,
                           d: Diagnostic)
    requires FilesHeld(lists, sorted, log) && d.file.None?
    ensures FilesHeld(lists, sorted, log + [d])
  {
    hide Holds;
    forall p ensures Holds(ListAt(lists, p), p in sorted, log + [d], InFile(p)) {
      AppendHolds(ListAt(lists, p), p in sorted, log, d, InFile(p));
    }
  }

  lemma FileHeld(lists: map<string, seq<Diagnostic>>, sorted: set<string>, log: seq<Diagnostic>, path: string)
    requires FilesHeld(lists, sorted, log)
    ensures Holds(ListAt(lists, path), path in sorted, log, InFile(path))
  {
  }

  lemma FileSortingHeld(lists: map<string, seq<Diagnostic>>, sorted: set<string>, log: seq<Diagnostic>, path: string)
    requires FilesHeld(lists, sorted, log)
    ensures var s := Sort(Select(log, InFile(path)), CompareDiagnostics);
      FilesHeld(if path in lists then lists[path := s] else lists, sorted + {path}, log)
  {
    assert Sort([], CompareDiagnostics) == [];
    hide Sort, Select, CompareDiagnostics;
    var s := Sort(Select(log, InFile(path)), CompareDiagnostics);
    SortTwice(Select(log, InFile(path)));
    FileHeld(lists, sorted, log, path);
    var lists' := if path in lists then lists[path := s] else lists;
    forall p ensures Holds(ListAt(lists', p), p in sorted + {path}, log, InFile(p)) {
      FileHeld(lists, sorted, log, p);
    }
  }

  lemma FirstEntryIndexed(
    index: map<LocationKey, Diagnostic>, collisions: map<LocationKey, seq<Diagnostic>>,
    log: seq<Diagnostic>, d: Diagnostic)
    requires Indexed(index, collisions, log) && KeyOf(d) !in index
    ensures Indexed(index[KeyOf(d) := d], collisions, log + [d])
  {
    hide Select, Bucket, KeyOf;
    forall key ensures Bucket(index[KeyOf(d) := d], collisions, key) == Select(log + [d], AtKey(key)) {
      assert Bucket(index, collisions, key) == Select(log, AtKey(key));
      SelectAppend(log, d, AtKey(key));
      BucketStarts(index, collisions, KeyOf(d), d, key);
    }
  }

  lemma BucketStarts(
    index: map<LocationKey, Diagnostic>, collisions: map<LocationKey, seq<Diagnostic>>,
    at: LocationKey, d: Diagnostic, key: LocationKey)
    requires at !in index && at !in collisions
    ensures Bucket(index[at := d], collisions, key) ==
      if key == at then Bucket(index, collisions, key) + [d] else Bucket(index, collisions, key)
  {
  }

  lemma CollisionIndexed(
    index: map<LocationKey, Diagnostic>, collisions: map<LocationKey, seq<Diagnostic>>,
    log: seq<Diagnostic>, d: Diagnostic)
    requires Indexed(index, collisions, log) && KeyOf(d) in index
    ensures Indexed(index, collisions[KeyOf(d) := ListAt(collisions, KeyOf(d)) + [d]], log + [d])
  {
    hide Select, Bucket, KeyOf;
    var collisions' := collisions[KeyOf(d) := ListAt(collisions, KeyOf(d)) + [d]];
    forall key ensures Bucket(index, collisions', key) == Select(log + [d], AtKey(key)) {
      assert Bucket(index, collisions, key) == Select(log, AtKey(key));
      SelectAppend(log, d, AtKey(key));
      BucketGrows(index, collisions, KeyOf(d), d, key);
    }
  }

  lemma BucketGrows(
    index: map<LocationKey, Diagnostic>, collisions: map<LocationKey, seq<Diagnostic>>,
    at: LocationKey, d: Diagnostic, key: LocationKey)
    ensures var collisions' := collisions[at := ListAt(collisions, at) + [d]];
      Bucket(index, collisions', key) ==
        if key == at then Bucket(index, collisions, key) + [d] else Bucket(index, collisions, key)
  {
    if key == at {
      var first := if key in index then [index[key]] else [];
      assert first + (ListAt(collisions, at) + [d]) == (first + ListAt(collisions, at)) + [d];
    }
  }

  // ---------- the collection ----------

  class DiagnosticsCollection {
    var count: int
    var fileDiagnostics: map<string, seq<Diagnostic>>
    var fileDiagnosticsSorted: set<string>
    var nonFileDiagnostics: seq<Diagnostic>
    var nonFileDiagnosticsSorted: bool
    var diagnosticIndex: map<LocationKey, Diagnostic>
    var diagnosticCollisions: map<LocationKey, seq<Diagnostic>>
    /** Everything stored, in the order it was added. */
    ghost var log: seq<Diagnostic>

    ghost predicate Valid()
      reads this
    {
      && count == |log|
      && NoDuplicates(log)
      && Holds(nonFileDiagnostics, nonFileDiagnosticsSorted, log, Global)
      && FilesHeld(fileDiagnostics, fileDiagnosticsSorted, log)
      && Indexed(diagnosticIndex, diagnosticCollisions, log)
    }

    constructor ()
      ensures Valid() && log == []
    {
      count := 0;
      fileDiagnostics := map[];
      fileDiagnosticsSorted := {};
      nonFileDiagnostics := [];
      nonFileDiagnosticsSorted := false;
      diagnosticIndex := map[];
      diagnosticCollisions := map[];
      log := [];
    }

    method Add(diagnostic: Diagnostic) returns (stored: Diagnostic)
      requires Valid()
      modifies this
      ensures Valid()
      ensures log == Record(old(log), diagnostic)
      ensures stored ==
        if Duplicate(old(log), diagnostic).Some? then Duplicate(old(log), diagnostic).value else diagnostic
      ensures forall d :: d in old(log) && Forget(diagnostic) == Forget(d) ==> stored == d && log == old(log)
      ensures See(stored) == See(diagnostic) && stored in log
    {
      hide See, Forget, Select, Holds, FilesHeld, Indexed, NoDuplicates;
      DuplicateIffSeen(log, diagnostic);
      forall d | d in log && Forget(diagnostic) == Forget(d) ensures Duplicate(log, diagnostic) == Some(d) {
        CopyIsNotStored(log, d, diagnostic);
      }
      var existing := FindDuplicate(diagnostic);
      if existing.Some? {
        return existing.value;
      }
      RecordKeepsNoDuplicates(log, diagnostic);
      Store(diagnostic);
      stored := diagnostic;
    }

    /** The first half of Add: the indexed diagnostic of the key, then its collisions. */
    method FindDuplicate(diagnostic: Diagnostic) returns (r: Option<Diagnostic>)
      requires Valid()
      ensures r == Duplicate(log, diagnostic)
    {
      var key := KeyOf(diagnostic);
      assert Bucket(diagnosticIndex, diagnosticCollisions, key) == Select(log, AtKey(key));
      if key !in diagnosticIndex {
        return None;
      }
      var existing, collisions := diagnosticIndex[key], ListAt(diagnosticCollisions, key);
      FirstEqualAppend([existing], collisions, diagnostic);
      if Equal(existing, diagnostic) {
        return Some(existing);
      }
      for i := 0 to |collisions|
        invariant FirstEqual(collisions, diagnostic) == FirstEqual(collisions[i..], diagnostic)
      {
        if Equal(collisions[i], diagnostic) {
          return Some(collisions[i]);
        }
      }
      r := None;
    }

    /** The second half of Add: enter a new diagnostic everywhere. */
    method Store(diagnostic: Diagnostic)
      requires Valid() && NoDuplicates(log + [diagnostic])
      modifies this
      ensures Valid() && log == old(log) + [diagnostic]
    {
      StoreInIndex(diagnostic);
      count := count + 1;
      StoreInList(diagnostic);
      log := log + [diagnostic];
    }

    method StoreInIndex(diagnostic: Diagnostic)
      requires Indexed(diagnosticIndex, diagnosticCollisions, log)
      modifies this`diagnosticIndex, this`diagnosticCollisions
      ensures Indexed(diagnosticIndex, diagnosticCollisions, log + [diagnostic])
    {
      var key := KeyOf(diagnostic);
      if key !in diagnosticIndex {
        FirstEntryIndexed(diagnosticIndex, diagnosticCollisions, log, diagnostic);
        diagnosticIndex := diagnosticIndex[key := diagnostic];
      } else {
        CollisionIndexed(diagnosticIndex, diagnosticCollisions, log, diagnostic);
        diagnosticCollisions := diagnosticCollisions[key := ListAt(diagnosticCollisions, key) + [diagnostic]];
      }
    }

    method StoreInList(diagnostic: Diagnostic)
      requires FilesHeld(fileDiagnostics, fileDiagnosticsSorted, log)
      requires Holds(nonFileDiagnostics, nonFileDiagnosticsSorted, log, Global)
      modifies this`fileDiagnostics, this`fileDiagnosticsSorted, this`nonFileDiagnostics, this`nonFileDiagnosticsSorted
      ensures FilesHeld(fileDiagnostics, fileDiagnosticsSorted, log + [diagnostic])
      ensures Holds(nonFileDiagnostics, nonFileDiagnosticsSorted, log + [diagnostic], Global)
    {
      hide Sort, Select, FilesHeld, Holds;
      AppendHolds(nonFileDiagnostics, nonFileDiagnosticsSorted, log, diagnostic, Global);
      if diagnostic.file.Some? {
        FileAdditionHeld(fileDiagnostics, fileDiagnosticsSorted, log, diagnostic);
        var path := diagnostic.file.value.path;
        fileDiagnostics := fileDiagnostics[path := ListAt(fileDiagnostics, path) + [diagnostic]];
        fileDiagnosticsSorted := fileDiagnosticsSorted - {path};
      } else {
        GlobalAdditionHeld(fileDiagnostics, fileDiagnosticsSorted, log, diagnostic);
        nonFileDiagnostics := nonFileDiagnostics + [diagnostic];
        nonFileDiagnosticsSorted := false;
      }
    }

    method GetGlobalDiagnostics() returns (r: seq<Diagnostic>)
      requires Valid()
      modifies this
      ensures Valid() && log == old(log)
      ensures r == Sort(Select(log, Global), CompareDiagnostics) && InOrder(r)
    {
      hide InOrder;
      SortIsInOrder(Select(log, Global));
      if !nonFileDiagnosticsSorted {
        nonFileDiagnostics := SortStableFunc(nonFileDiagnostics, CompareDiagnostics);
        SortTwice(Select(log, Global));
        nonFileDiagnosticsSorted := true;
      }
      r := nonFileDiagnostics;
    }

    method GetDiagnosticsForFile(file: SourceFile) returns (r: seq<Diagnostic>)
      requires Valid()
      modifies this
      ensures Valid() && log == old(log)
      ensures r == Sort(Select(log, InFile(file.path)), CompareDiagnostics) && InOrder(r)
    {
      hide Sort, Select, FilesHeld, NoDuplicates, Indexed, InOrder;
      SortIsInOrder(Select(log, InFile(file.path)));
      var path := file.path;
      FileHeld(fileDiagnostics, fileDiagnosticsSorted, log, path);
      if path !in fileDiagnosticsSorted {
        var sorted := SortStableFunc(ListAt(fileDiagnostics, path), CompareDiagnostics);
        SortTwice(Select(log, InFile(path)));
        FileSortingHeld(fileDiagnostics, fileDiagnosticsSorted, log, path);
        if path in fileDiagnostics {
          fileDiagnostics := fileDiagnostics[path := sorted];
        }
        fileDiagnosticsSorted := fileDiagnosticsSorted + {path};
      }
      FileHeld(fileDiagnostics, fileDiagnosticsSorted, log, path);
      r := ListAt(fileDiagnostics, path);
    }

    method Lookup(diagnostic: Diagnostic) returns (r: Option<Diagnostic>)
      requires Valid()
      modifies this
      ensures Valid() && log == old(log)
      ensures r == Earliest(log, diagnostic)
    {
      var diagnostics;
      if diagnostic.file.Some? {
        diagnostics := GetDiagnosticsForFile(diagnostic.file.value);
      } else {
        diagnostics := GetGlobalDiagnostics();
      }
      CompareIsLawful();
      SortIsSortedPermutation(Select(log, BucketOf(diagnostic)), CompareDiagnostics);
      SortKeepsTies(Select(log, BucketOf(diagnostic)), diagnostic, CompareDiagnostics);
      var i, ok := BinarySearchFunc(diagnostics, diagnostic, CompareDiagnostics);
      FirstBehindSmaller(diagnostics, diagnostic, i);
      r := if ok then Some(diagnostics[i]) else None;
    }

    method GetDiagnostics() returns (r: seq<Diagnostic>)
      requires Valid()
      ensures Sorted(r, CompareDiagnostics) && multiset(r) == multiset(log) && InOrder(r)
      ensures |r| == count
    {
      hide InOrder;
      CompareIsLawful();
      PermutationOfPart(nonFileDiagnostics, Global);
      var diagnostics := nonFileDiagnostics;
      SelectNoFile(log);
      var paths := fileDiagnostics.Keys;
      ghost var done: set<string> := {};
      while paths != {}
        invariant done + paths == fileDiagnostics.Keys && done !! paths
        invariant multiset(diagnostics) == multiset(Select(log, Global)) + multiset(Select(log, InFiles(done)))
        decreases paths
      {
        var path :| path in paths;
        assert Holds(ListAt(fileDiagnostics, path), path in fileDiagnosticsSorted, log, InFile(path));
        PermutationOfPart(ListAt(fileDiagnostics, path), InFile(path));
        SelectSplitsByFile(log, done, path);
        diagnostics := diagnostics + fileDiagnostics[path];
        paths := paths - {path};
        done := done + {path};
      }
      assert done == fileDiagnostics.Keys;
      AllFilesListed();
      SelectAllFiles(log, done);
      r := SortFunc(diagnostics, CompareDiagnostics);
      SortedIsInOrder(r);
      assert |r| == |multiset(r)| && |log| == |multiset(log)|;
    }

    lemma PermutationOfPart(list: seq<Diagnostic>, sel: Selector)
      requires Sort(list, CompareDiagnostics) == Sort(Select(log, sel), CompareDiagnostics)
      ensures multiset(list) == multiset(Select(log, sel))
    {
      CompareIsLawful();
      SortIsSortedPermutation(list, CompareDiagnostics);
      SortIsSortedPermutation(Select(log, sel), CompareDiagnostics);
    }

    lemma AllFilesListed()
      requires Valid()
      ensures forall d :: d in log && d.file.Some? ==> d.file.value.path in fileDiagnostics
    {
      forall d | d in log && d.file.Some? ensures d.file.value.path in fileDiagnostics {
        var path := d.file.value.path;
        assert Holds(ListAt(fileDiagnostics, path), path in fileDiagnosticsSorted, log, InFile(path));
        PermutationOfPart(ListAt(fileDiagnostics, path), InFile(path));
        SelectMembers(log, InFile(path));
        assert d in multiset(Select(log, InFile(path)));
      }
    }
  }

  lemma SortTwice(s: seq<Diagnostic>)
    ensures Sort(Sort(s, CompareDiagnostics), CompareDiagnostics) == Sort(s, CompareDiagnostics)
  {
    CompareIsLawful();
    SortIsSortedPermutation(s, CompareDiagnostics);
    SortOfSorted(Sort(s, CompareDiagnostics), CompareDiagnostics);
  }

  lemma FirstBehindSmaller(s: seq<Diagnostic>, d: Diagnostic, i: nat)
    requires Sorted(s, CompareDiagnostics) && i <= |s|
    requires forall k :: 0 <= k < i ==> Compare(s[k], d) < 0
    requires forall k :: i <= k < |s| ==> Compare(s[k], d) >= 0
    ensures Tied(s, d, CompareDiagnostics) == [] <==> i == |s| || Compare(s[i], d) != 0
    ensures i < |s| && Compare(s[i], d) == 0 ==>
      Tied(s, d, CompareDiagnostics) != [] && Tied(s, d, CompareDiagnostics)[0] == s[i]
  {
    if i < |s| && Compare(s[i], d) != 0 {
      forall k | i <= k < |s| ensures Compare(s[k], d) != 0 {
        if i < k {
          assert Compare(s[i], s[k]) <= 0;
          CompareAntisymmetric(s[i], s[k]);
          CompareAntisymmetric(s[i], d);
          CompareCoherent(d, s[i], s[k]);
          CompareAntisymmetric(d, s[k]);
        }
      }
    }
    FirstTied(s, d, i, CompareDiagnostics);
  }

  // ---------- any interleaving of calls ----------

  datatype Call =
    | AddCall(d: Diagnostic)
    | LookupCall(d: Diagnostic)
    | GlobalCall
    | FileCall(file: SourceFile)
    | AllCall

  datatype Answer =
    | Stored(d: Diagnostic)
    | Found(result: Option<Diagnostic>)
    | Listed(list: seq<Diagnostic>)

  function LogAfter(log: seq<Diagnostic>, call: Call): seq<Diagnostic> {
    if call.AddCall? then Record(log, call.d) else log
  }

  /** What was recorded when these calls had been made. */
  function LogOf(calls: seq<Call>): seq<Diagnostic> {
    if calls == [] then [] else LogAfter(LogOf(calls[..|calls| - 1]), calls[|calls| - 1])
  }

  /** What a call may answer, in terms of the log alone: no sorted flag occurs here. Only the list of everything is
      not settled by it: diagnostics that compare as equal may come in any order. */
  ghost predicate IsAnswer(log: seq<Diagnostic>, call: Call, answer: Answer) {
    match call
    case AddCall(d) => answer == Stored(if Duplicate(log, d).Some? then Duplicate(log, d).value else d)
    case LookupCall(d) => answer == Found(Earliest(log, d))
    case GlobalCall => answer == Listed(Sort(Select(log, Global), CompareDiagnostics))
    case FileCall(file) => answer == Listed(Sort(Select(log, InFile(file.path)), CompareDiagnostics))
    case AllCall => answer.Listed? && Sorted(answer.list, CompareDiagnostics) && multiset(answer.list) == multiset(log)
  }

  /** Every list a call may answer with is in order. */
  lemma ListsAreInOrder(log: seq<Diagnostic>, call: Call, answer: Answer)
    requires IsAnswer(log, call, answer) && answer.Listed?
    ensures InOrder(answer.list)
  {
    hide InOrder, Sort, Select;
    match call
    case GlobalCall => SortIsInOrder(Select(log, Global));
    case FileCall(file) => SortIsInOrder(Select(log, InFile(file.path)));
    case AllCall => SortedIsInOrder(answer.list);
    case _ =>
  }

  method Perform(c: DiagnosticsCollection, call: Call) returns (answer: Answer)
    requires c.Valid()
    modifies c
    ensures c.Valid() && c.log == LogAfter(old(c.log), call)
    ensures IsAnswer(old(c.log), call, answer)
  {
    match call {
      case AddCall(d) =>
        var stored := c.Add(d);
        answer := Stored(stored);
      case LookupCall(d) =>
        var found := c.Lookup(d);
        answer := Found(found);
      case GlobalCall =>
        var list := c.GetGlobalDiagnostics();
        answer := Listed(list);
      case FileCall(file) =>
        var list := c.GetDiagnosticsForFile(file);
        answer := Listed(list);
      case AllCall =>
        var list := c.GetDiagnostics();
        answer := Listed(list);
    }
  }

  lemma LogOfNext(calls: seq<Call>, i: nat)
    requires i < |calls|
    ensures LogOf(calls[..i + 1]) == LogAfter(LogOf(calls[..i]), calls[i])
  {
    assert calls[..i + 1][..i] == calls[..i];
  }

  lemma NothingRecorded(calls: seq<Call>)
    requires calls == []
    ensures LogOf(calls) == []
  {
  }

  /** Every interleaving of calls on a new collection is answered from what was recorded before each call. */
  method Interleave(calls: seq<Call>) returns (answers: seq<Answer>)
    ensures |answers| == |calls|
    ensures forall i :: 0 <= i < |calls| ==> IsAnswer(LogOf(calls[..i]), calls[i], answers[i])
  {
    hide *;
    NothingRecorded(calls[..0]);
    var c := new DiagnosticsCollection();
    answers := [];
    for i := 0 to |calls|
      invariant c.Valid() && fresh(c) && c.log == LogOf(calls[..i]) && |answers| == i
      invariant forall k :: 0 <= k < i ==> IsAnswer(LogOf(calls[..k]), calls[k], answers[k])
    {
      var answer := Perform(c, calls[i]);
      LogOfNext(calls, i);
      answers := answers + [answer];
    }
  }
}
