/** `process_zip_file`: a yearly archive holds inner archives, each holding daily CSV
    files. The walk visits the inner archives in sorted name order and, in each, the
    `.csv` entries in sorted name order, runs `process_csv_file` on each, and
    concatenates the results. A yearly file that is not a zip archive raises at once.
    Decompression is not modelled: an archive is a sequence of named entries whose
    contents are given. */
module Archive {
  import opened Common
  import opened Text
  import opened Cleaning

  /** The content of a CSV entry: the parsed rows, or a file that cannot be read, parsed
      or converted (a corrupt entry, a missing column, a bad date), which raises. */
  datatype CsvData = Rows(rows: seq<RawRow>) | Unreadable

  /** An entry of an inner archive. Entries not ending in `.csv` are never opened. */
  type InnerEntry = Named<CsvData>

  /** The content of an entry of the yearly archive: an inner archive, or bytes that are
      not a zip archive (opening them raises). */
  datatype OuterData = Zip(entries: seq<InnerEntry>) | NotZip

  type OuterEntry = Named<OuterData>

  /** The content of a yearly archive file: its entries, or a file `zipfile.ZipFile`
      cannot open (not a zip archive, or a directory whose name ends in `.zip`). */
  datatype YearlyData = ZipArchive(entries: seq<OuterEntry>) | NotZipArchive

  /** Why a walk raises. */
  datatype WalkError =
    | BadArchive(path: string)
    | BadInnerArchive(outer: string)
    | BadCsv(name: string)
    | NoObjectsToConcatenate

  /** One step of the walk: opening an outer entry that is not an archive, or opening one
      CSV entry of an inner archive. */
  datatype Visit =
    | NotAnArchive(outer: string)
    | CsvVisit(outer: string, name: string, data: CsvData)

  // ---------------------------------------------------------------------------
  // Names and lookup

  /** The names the walk processes, in the order given: those ending in `.csv`. */
  function CsvNames(names: seq<string>): (r: seq<string>)
    ensures forall x :: x in r <==> x in names && EndsWith(x, ".csv")
  {
    if names == [] then []
    else
      assert names == [names[0]] + names[1..];
      (if EndsWith(names[0], ".csv") then [names[0]] else []) + CsvNames(names[1..])
  }

  // ---------------------------------------------------------------------------
  // The order of the walk

  /** The CSV visits of one inner archive, for its names in the order given. */
  function CsvVisits(outer: string, es: seq<InnerEntry>, names: seq<string>): (r: seq<Visit>)
    requires forall x :: x in names ==> x in Names(es)
  {
    if names == [] then []
    else
      (if EndsWith(names[0], ".csv") then [CsvVisit(outer, names[0], Lookup(es, names[0]))] else [])
      + CsvVisits(outer, es, names[1..])
  }

  /** The visits made inside the inner archive `outer`: its names in sorted order. */
  function ChildVisits(outer: string, es: seq<InnerEntry>): seq<Visit>
  {
    SortMembers(Names(es));
    CsvVisits(outer, es, Sort(Names(es)))
  }

  /** The visits made for one name of the yearly archive. */
  function VisitsOf(a: seq<OuterEntry>, outer: string): seq<Visit>
    requires outer in Names(a)
  {
    match Lookup(a, outer)
    case NotZip => [NotAnArchive(outer)]
    case Zip(es) => ChildVisits(outer, es)
  }

  /** The visits made for the names of the yearly archive, in the order given. */
  function VisitsFrom(a: seq<OuterEntry>, names: seq<string>): seq<Visit>
    requires forall x :: x in names ==> x in Names(a)
  {
    if names == [] then [] else VisitsOf(a, names[0]) + VisitsFrom(a, names[1..])
  }

  /** Every visit of a walk, in order. */
  function Visits(a: seq<OuterEntry>): seq<Visit>
  {
    SortMembers(Names(a));
    VisitsFrom(a, Sort(Names(a)))
  }

  // ---------------------------------------------------------------------------
  // Combining the per-file results

  /** A visit that raises. */
  predicate Fails(v: Visit)
  {
    v.NotAnArchive? || v.data.Unreadable?
  }

  /** The error a failing visit raises. */
  function ErrorOf(v: Visit): WalkError
  {
    if v.NotAnArchive? then BadInnerArchive(v.outer) else BadCsv(v.name)
  }

  /** The tables read by a run of visits, in visit order, unless a visit raises, in which
      case the first failing visit's error. */
  function Read(vs: seq<Visit>): (r: Result<seq<seq<RawRow>>, WalkError>)
    ensures r.Failure? ==> r.error.BadInnerArchive? || r.error.BadCsv?
  {
    if vs == [] then Success([])
    else if Fails(vs[0]) then Failure(ErrorOf(vs[0]))
    else
      match Read(vs[1..])
      case Failure(e) => Failure(e)
      case Success(ts) => Success([vs[0].data.rows] + ts)
  }

  /** Reading succeeds exactly when no visit fails; then it holds one table per visit,
      in visit order; otherwise its error is that of the first failing visit. */
  lemma {:induction false} ReadSpec(vs: seq<Visit>)
    ensures Read(vs).Success? <==> forall k :: 0 <= k < |vs| ==> !Fails(vs[k])
    ensures Read(vs).Success? ==>
      (|Read(vs).value| == |vs| && forall k :: 0 <= k < |vs| ==> Read(vs).value[k] == vs[k].data.rows)
    ensures Read(vs).Failure? ==>
      exists k :: (0 <= k < |vs| && Fails(vs[k]) && Read(vs).error == ErrorOf(vs[k])
                   && forall j :: 0 <= j < k ==> !Fails(vs[j]))
  {
    if vs != [] && !Fails(vs[0]) {
      ReadSpec(vs[1..]);
      var rest := Read(vs[1..]);
      if rest.Failure? {
        var k :| 0 <= k < |vs[1..]| && Fails(vs[1..][k]) && rest.error == ErrorOf(vs[1..][k])
          && forall j :: 0 <= j < k ==> !Fails(vs[1..][j]);
        assert vs[k + 1] == vs[1..][k];
        forall j | 0 < j < k + 1 ensures !Fails(vs[j]) {
          assert vs[j] == vs[1..][j - 1];
        }
      } else {
        forall k | 0 < k < |vs| ensures Read(vs).value[k] == vs[k].data.rows && !Fails(vs[k]) {
          assert vs[k] == vs[1..][k - 1];
        }
      }
    }
  }

  /** `[process_csv_file(t, site_ids) for t in tables]`. */
  function ProcessEach(tables: seq<seq<RawRow>>, selected: seq<int>): (dfs: seq<seq<LongRow>>)
    ensures |dfs| == |tables|
  {
    seq(|tables|, k requires 0 <= k < |tables| => ProcessCsv(tables[k], selected))
  }

  /** The list `dfs` after a run of visits, or the error that ended it. */
  function Dfs(vs: seq<Visit>, selected: seq<int>): Result<seq<seq<LongRow>>, WalkError>
  {
    match Read(vs)
    case Failure(e) => Failure(e)
    case Success(tables) => Success(ProcessEach(tables, selected))
  }

  /** `process_zip_file` as a function of the archive's contents: `pd.concat(dfs)`, which
      raises on an empty list. */
  function Walk(a: seq<OuterEntry>, selected: seq<int>): (r: Result<seq<LongRow>, WalkError>)
    ensures r.Failure? ==> !r.error.BadArchive?
  {
    match Dfs(Visits(a), selected)
    case Failure(e) => Failure(e)
    case Success(dfs) => if dfs == [] then Failure(NoObjectsToConcatenate) else Success(Flatten(dfs))
  }

  /** `process_zip_file` on a file of the data directory: a file that cannot be opened
      as a zip archive raises before anything is visited. */
  function ProcessZip(path: string, y: YearlyData, selected: seq<int>): (r: Result<seq<LongRow>, WalkError>)
    ensures r == Failure(BadArchive(path)) <==> y.NotZipArchive?
  {
    match y
    case NotZipArchive => Failure(BadArchive(path))
    case ZipArchive(a) => Walk(a, selected)
  }

  // ---------------------------------------------------------------------------
  // Splitting lemmas used by the loop proof

  lemma {:induction false} CsvVisitsAppend(outer: string, es: seq<InnerEntry>, n1: seq<string>, n2: seq<string>)
    requires forall x :: x in n1 + n2 ==> x in Names(es)
    ensures CsvVisits(outer, es, n1 + n2) == CsvVisits(outer, es, n1) + CsvVisits(outer, es, n2)
  {
    if n1 == [] {
      assert n1 + n2 == n2;
    } else {
      assert (n1 + n2)[0] == n1[0] && (n1 + n2)[1..] == n1[1..] + n2;
      CsvVisitsAppend(outer, es, n1[1..], n2);
      var head := if EndsWith(n1[0], ".csv") then [CsvVisit(outer, n1[0], Lookup(es, n1[0]))] else [];
      ConcatAssoc(head, CsvVisits(outer, es, n1[1..]), CsvVisits(outer, es, n2));
    }
  }

  lemma {:induction false} VisitsFromAppend(a: seq<OuterEntry>, n1: seq<string>, n2: seq<string>)
    requires forall x :: x in n1 + n2 ==> x in Names(a)
    ensures VisitsFrom(a, n1 + n2) == VisitsFrom(a, n1) + VisitsFrom(a, n2)
  {
    if n1 == [] {
      assert n1 + n2 == n2;
    } else {
      assert (n1 + n2)[1..] == n1[1..] + n2;
      VisitsFromAppend(a, n1[1..], n2);
    }
  }

  lemma {:induction false} ReadAppend(v1: seq<Visit>, v2: seq<Visit>)
    ensures Read(v1).Failure? ==> Read(v1 + v2) == Read(v1)
    ensures Read(v1).Success? && Read(v2).Failure? ==> Read(v1 + v2) == Read(v2)
    ensures Read(v1).Success? && Read(v2).Success? ==>
      Read(v1 + v2) == Success(Read(v1).value + Read(v2).value)
  {
    if v1 == [] {
      assert v1 + v2 == v2;
      if Read(v2).Success? {
        assert Read(v1).value + Read(v2).value == Read(v2).value;
      }
    } else {
      var v := v1 + v2;
      assert v[0] == v1[0] && v[1..] == v1[1..] + v2;
      if !Fails(v1[0]) {
        ReadAppend(v1[1..], v2);
        if Read(v1).Success? && Read(v2).Success? {
          var a := Read(v1[1..]).value;
          var b := Read(v2).value;
          assert [v1[0].data.rows] + (a + b) == ([v1[0].data.rows] + a) + b;
        }
      }
    }
  }

  lemma ProcessEachAppend(tables: seq<seq<RawRow>>, rows: seq<RawRow>, selected: seq<int>)
    ensures ProcessEach(tables + [rows], selected) == ProcessEach(tables, selected) + [ProcessCsv(rows, selected)]
  {
  }

  /** Once a walk has raised, later visits do not matter. */
  lemma DfsFailed(done: seq<Visit>, rest: seq<Visit>, selected: seq<int>)
    requires Dfs(done, selected).Failure?
    ensures Dfs(done + rest, selected) == Dfs(done, selected)
  {
    ReadAppend(done, rest);
  }

  /** A walk whose visits so far succeeded stops with the error of a failing visit. */
  lemma DfsStops(done: seq<Visit>, v: Visit, rest: seq<Visit>, selected: seq<int>)
    requires Dfs(done, selected).Success? && Fails(v)
    ensures Dfs(done + ([v] + rest), selected) == Failure(ErrorOf(v))
  {
    assert ([v] + rest)[0] == v;
    ReadAppend(done, [v] + rest);
  }

  /** A walk whose visits so far succeeded appends the table of a good visit. */
  lemma DfsExtends(done: seq<Visit>, v: Visit, selected: seq<int>)
    requires Dfs(done, selected).Success? && !Fails(v)
    ensures Dfs(done + [v], selected) == Success(Dfs(done, selected).value + [ProcessCsv(v.data.rows, selected)])
  {
    assert [v][0] == v && [v][1..] == [];
    assert Read([v][1..]) == Success([]);
    assert [v.data.rows] + [] == [v.data.rows];
    ReadAppend(done, [v]);
    ProcessEachAppend(Read(done).value, v.data.rows, selected);
  }

  /** Splitting the outer names at position `i`. */
  lemma OuterStep(a: seq<OuterEntry>, names: seq<string>, i: nat)
    requires forall x :: x in names ==> x in Names(a)
    requires i < |names|
    ensures VisitsFrom(a, names[..i + 1]) == VisitsFrom(a, names[..i]) + VisitsOf(a, names[i])
    ensures VisitsFrom(a, names) == VisitsFrom(a, names[..i + 1]) + VisitsFrom(a, names[i + 1..])
  {
    assert names[..i + 1] == names[..i] + [names[i]];
    assert names == names[..i + 1] + names[i + 1..];
    VisitsFromAppend(a, names[..i + 1], names[i + 1..]);
    VisitsFromAppend(a, names[..i], [names[i]]);
    assert [names[i]][1..] == [];
  }

  /** Splitting the inner names at position `j`. */
  lemma InnerStep(outer: string, es: seq<InnerEntry>, names: seq<string>, j: nat)
    requires forall x :: x in names ==> x in Names(es)
    requires j < |names|
    ensures CsvVisits(outer, es, names[..j + 1]) ==
      CsvVisits(outer, es, names[..j]) + CsvVisits(outer, es, [names[j]])
    ensures CsvVisits(outer, es, names) ==
      CsvVisits(outer, es, names[..j]) + (CsvVisits(outer, es, [names[j]]) + CsvVisits(outer, es, names[j + 1..]))
  {
    assert names[..j + 1] == names[..j] + [names[j]];
    assert names == names[..j] + ([names[j]] + names[j + 1..]);
    CsvVisitsAppend(outer, es, names[..j], [names[j]] + names[j + 1..]);
    CsvVisitsAppend(outer, es, [names[j]], names[j + 1..]);
    CsvVisitsAppend(outer, es, names[..j], [names[j]]);
  }

  /** An outer entry that is not an archive ends a walk whose earlier visits succeeded. */
  lemma OuterFails(a: seq<OuterEntry>, names: seq<string>, i: nat, selected: seq<int>)
    requires forall x :: x in names ==> x in Names(a)
    requires i < |names| && Lookup(a, names[i]).NotZip?
    requires Dfs(VisitsFrom(a, names[..i]), selected).Success?
    ensures Dfs(VisitsFrom(a, names), selected) == Failure(BadInnerArchive(names[i]))
  {
    OuterStep(a, names, i);
    var before := VisitsFrom(a, names[..i]);
    var after := VisitsFrom(a, names[i + 1..]);
    var v := NotAnArchive(names[i]);
    assert VisitsOf(a, names[i]) == [v];
    ConcatAssoc(before, [v], after);
    DfsStops(before, NotAnArchive(names[i]), after, selected);
  }

  /** An inner archive ends the walk, or extends it by its own visits. */
  lemma OuterAdvance(a: seq<OuterEntry>, names: seq<string>, i: nat, es: seq<InnerEntry>, selected: seq<int>)
    requires forall x :: x in names ==> x in Names(a)
    requires i < |names| && Lookup(a, names[i]) == Zip(es)
    ensures VisitsFrom(a, names[..i + 1]) == VisitsFrom(a, names[..i]) + ChildVisits(names[i], es)
    ensures Dfs(VisitsFrom(a, names[..i + 1]), selected).Failure? ==>
      Dfs(VisitsFrom(a, names), selected) == Dfs(VisitsFrom(a, names[..i + 1]), selected)
  {
    OuterStep(a, names, i);
    if Dfs(VisitsFrom(a, names[..i + 1]), selected).Failure? {
      DfsFailed(VisitsFrom(a, names[..i + 1]), VisitsFrom(a, names[i + 1..]), selected);
    }
  }

  /** One more inner name: a CSV entry that cannot be read ends the walk, a readable one
      adds its table, and any other name adds nothing. */
  lemma InnerAdvance(before: seq<Visit>, outer: string, es: seq<InnerEntry>, names: seq<string>, j: nat,
                     selected: seq<int>)
    requires forall x :: x in names ==> x in Names(es)
    requires j < |names|
    requires Dfs(before + CsvVisits(outer, es, names[..j]), selected).Success?
    ensures !EndsWith(names[j], ".csv") ==>
      Dfs(before + CsvVisits(outer, es, names[..j + 1]), selected)
      == Dfs(before + CsvVisits(outer, es, names[..j]), selected)
    ensures EndsWith(names[j], ".csv") && Lookup(es, names[j]).Rows? ==>
      Dfs(before + CsvVisits(outer, es, names[..j + 1]), selected)
      == Success(Dfs(before + CsvVisits(outer, es, names[..j]), selected).value
                 + [ProcessCsv(Lookup(es, names[j]).rows, selected)])
    ensures EndsWith(names[j], ".csv") && Lookup(es, names[j]).Unreadable? ==>
      Dfs(before + CsvVisits(outer, es, names), selected) == Failure(BadCsv(names[j]))
  {
    InnerStep(outer, es, names, j);
    var done := CsvVisits(outer, es, names[..j]);
    var step := CsvVisits(outer, es, [names[j]]);
    var later := CsvVisits(outer, es, names[j + 1..]);
    ConcatAssoc(before, done, step);
    if EndsWith(names[j], ".csv") {
      var v := CsvVisit(outer, names[j], Lookup(es, names[j]));
      assert step == [v];
      if v.data.Unreadable? {
        ConcatAssoc(before, done, [v] + later);
        DfsStops(before + done, v, later, selected);
      } else {
        DfsExtends(before + done, v, selected);
      }
    } else {
      assert step == [];
      assert (before + done) + step == before + done;
    }
  }

  // ---------------------------------------------------------------------------
  // What a walk produces

  /** The walk succeeds exactly when it makes at least one visit and none raises; its
      rows are then the tables of the CSV files, processed one by one and concatenated in
      visit order. */
  lemma WalkSuccess(a: seq<OuterEntry>, selected: seq<int>)
    ensures Walk(a, selected).Success? <==>
      Visits(a) != [] && forall k :: 0 <= k < |Visits(a)| ==> !Fails(Visits(a)[k])
    ensures Walk(a, selected).Success? ==>
      exists dfs: seq<seq<LongRow>> :: (|dfs| == |Visits(a)| && Walk(a, selected).value == Flatten(dfs)
        && forall k :: 0 <= k < |dfs| ==>
             Visits(a)[k].CsvVisit? && Visits(a)[k].data.Rows?
             && dfs[k] == ProcessCsv(Visits(a)[k].data.rows, selected))
  {
    var vs := Visits(a);
    DfsSuccess(vs, selected);
    if Walk(a, selected).Success? {
      assert Walk(a, selected).value == Flatten(Dfs(vs, selected).value);
    }
  }

  /** The list `dfs` is built exactly when no visit raises; it then holds the table of
      each visit, in visit order. */
  lemma DfsSuccess(vs: seq<Visit>, selected: seq<int>)
    ensures Dfs(vs, selected).Success? <==> forall k :: 0 <= k < |vs| ==> !Fails(vs[k])
    ensures Dfs(vs, selected).Success? ==>
      |Dfs(vs, selected).value| == |vs|
      && forall k :: 0 <= k < |vs| ==>
           vs[k].CsvVisit? && vs[k].data.Rows?
           && Dfs(vs, selected).value[k] == ProcessCsv(vs[k].data.rows, selected)
  {
    ReadSpec(vs);
  }

  /** `pd.concat` raises on an empty list exactly when the walk visits nothing; any other
      failure is the error of the first visit that raises. */
  lemma WalkFailure(a: seq<OuterEntry>, selected: seq<int>)
    ensures Walk(a, selected) == Failure(NoObjectsToConcatenate) <==> Visits(a) == []
    ensures Walk(a, selected).Failure? && Visits(a) != [] ==>
      exists k :: (0 <= k < |Visits(a)| && Fails(Visits(a)[k]) && Walk(a, selected).error == ErrorOf(Visits(a)[k])
                   && forall j :: 0 <= j < k ==> !Fails(Visits(a)[j]))
  {
    var vs := Visits(a);
    ReadSpec(vs);
    if Read(vs).Failure? {
      var k :| 0 <= k < |vs| && Fails(vs[k]) && Read(vs).error == ErrorOf(vs[k]);
      assert Walk(a, selected).error == ErrorOf(vs[k]);
    }
  }

  /** Every row of a successful walk belongs to a selected site, carries a non-negative
      volume and one of the 24 hour labels. */
  lemma WalkRows(a: seq<OuterEntry>, selected: seq<int>)
    ensures Walk(a, selected).Success? ==>
      forall x :: x in Walk(a, selected).value ==>
        x.siteId in selected && x.volume >= 0 && x.hour in HourLabels
  {
    if Walk(a, selected).Success? {
      var dfs := Dfs(Visits(a), selected).value;
      var tables := Read(Visits(a)).value;
      forall x | x in Walk(a, selected).value
        ensures x.siteId in selected && x.volume >= 0 && x.hour in HourLabels
      {
        FlattenMember(dfs, x);
        var k :| 0 <= k < |dfs| && x in dfs[k];
        ProcessCsvRows(tables[k], selected);
      }
    }
  }

  // ---------------------------------------------------------------------------
  // The order of the visits

  /** The names opened by a run of visits (the inner archive's name for one that is not
      an archive). */
  function Opened(vs: seq<Visit>): seq<string>
  {
    if vs == [] then []
    else [if vs[0].CsvVisit? then vs[0].name else vs[0].outer] + Opened(vs[1..])
  }

  lemma {:induction false} OpenedAppend(v1: seq<Visit>, v2: seq<Visit>)
    ensures Opened(v1 + v2) == Opened(v1) + Opened(v2)
  {
    if v1 == [] {
      assert v1 + v2 == v2;
    } else {
      assert (v1 + v2)[1..] == v1[1..] + v2;
      OpenedAppend(v1[1..], v2);
    }
  }

  /** Keeping the `.csv` names of an ordered list keeps it ordered. */
  lemma {:induction false} CsvNamesSorted(names: seq<string>)
    requires Sorted(names)
    ensures Sorted(CsvNames(names))
  {
    if names != [] {
      CsvNamesSorted(names[1..]);
      var rest := CsvNames(names[1..]);
      if EndsWith(names[0], ".csv") {
        var r := [names[0]] + rest;
        forall i, j | 0 <= i < j < |r| ensures LexLe(r[i], r[j]) {
          if i == 0 {
            assert r[j] in names[1..];
            var m :| 0 <= m < |names[1..]| && names[1..][m] == r[j];
            assert names[m + 1] == r[j];
          } else {
            assert r[i] == rest[i - 1] && r[j] == rest[j - 1];
          }
        }
      }
    }
  }

  /** The CSV visits of an inner archive, for its names in a given order: every one
      opens a `.csv` name of that archive, reads the last entry of that name, and they
      come in the order of the names. */
  lemma {:induction false} CsvVisitsOpen(outer: string, es: seq<InnerEntry>, names: seq<string>)
    requires forall x :: x in names ==> x in Names(es)
    ensures Opened(CsvVisits(outer, es, names)) == CsvNames(names)
    ensures forall k :: 0 <= k < |CsvVisits(outer, es, names)| ==>
      var v := CsvVisits(outer, es, names)[k];
      v.CsvVisit? && v.outer == outer && v.name in Names(es) && v.data == Lookup(es, v.name)
  {
    if names != [] {
      CsvVisitsOpen(outer, es, names[1..]);
      var head := if EndsWith(names[0], ".csv") then [CsvVisit(outer, names[0], Lookup(es, names[0]))] else [];
      var rest := CsvVisits(outer, es, names[1..]);
      OpenedAppend(head, rest);
      assert Opened(head) == if EndsWith(names[0], ".csv") then [names[0]] else [];
      forall k | 0 <= k < |head + rest|
        ensures var v := (head + rest)[k];
          v.CsvVisit? && v.outer == outer && v.name in Names(es) && v.data == Lookup(es, v.name)
      {
        if k >= |head| {
          assert (head + rest)[k] == rest[k - |head|];
        }
      }
    }
  }

  /** Inside one inner archive the walk opens exactly its `.csv` names, in sorted order
      (a name listed twice is opened twice), each time reading the last entry of that
      name. */
  lemma ChildVisitsOrder(outer: string, es: seq<InnerEntry>)
    ensures Opened(ChildVisits(outer, es)) == CsvNames(Sort(Names(es)))
    ensures Sorted(Opened(ChildVisits(outer, es)))
    ensures forall x :: x in Opened(ChildVisits(outer, es)) <==> x in Names(es) && EndsWith(x, ".csv")
    ensures forall k :: 0 <= k < |ChildVisits(outer, es)| ==>
      var v := ChildVisits(outer, es)[k];
      v.CsvVisit? && v.outer == outer && v.name in Names(es) && v.data == Lookup(es, v.name)
  {
    SortMembers(Names(es));
    CsvVisitsOpen(outer, es, Sort(Names(es)));
    SortSorted(Names(es));
    CsvNamesSorted(Sort(Names(es)));
  }

  /** All visits made for one name of the yearly archive carry that name. */
  lemma VisitsOfOuter(a: seq<OuterEntry>, outer: string)
    requires outer in Names(a)
    ensures forall k :: 0 <= k < |VisitsOf(a, outer)| ==> VisitsOf(a, outer)[k].outer == outer
  {
    match Lookup(a, outer)
    case NotZip =>
    case Zip(es) => ChildVisitsOrder(outer, es);
  }

  /** Every visit made for a list of outer names carries one of those names. */
  lemma {:induction false} VisitsFromOuter(a: seq<OuterEntry>, names: seq<string>)
    requires forall x :: x in names ==> x in Names(a)
    ensures forall k :: 0 <= k < |VisitsFrom(a, names)| ==> VisitsFrom(a, names)[k].outer in names
  {
    if names != [] {
      var head := VisitsOf(a, names[0]);
      var rest := VisitsFrom(a, names[1..]);
      var vs: seq<Visit> := head + rest;
      VisitsFromOuter(a, names[1..]);
      VisitsOfOuter(a, names[0]);
      forall k | 0 <= k < |vs| ensures vs[k].outer in names {
        if k < |head| {
          assert vs[k] == head[k];
        } else {
          assert vs[k] == rest[k - |head|];
        }
      }
    }
  }

  /** Visits made for an ordered list of outer names come in that order. */
  lemma {:induction false} VisitsFromOrder(a: seq<OuterEntry>, names: seq<string>)
    requires forall x :: x in names ==> x in Names(a)
    requires Sorted(names)
    ensures forall k, l :: 0 <= k < l < |VisitsFrom(a, names)| ==>
      LexLe(VisitsFrom(a, names)[k].outer, VisitsFrom(a, names)[l].outer)
  {
    if names != [] {
      var n := names[0];
      var head := VisitsOf(a, n);
      var rest := VisitsFrom(a, names[1..]);
      var vs := head + rest;
      assert Sorted(names[1..]) by {
        forall i, j | 0 <= i < j < |names[1..]| ensures LexLe(names[1..][i], names[1..][j]) {
          assert names[1..][i] == names[i + 1] && names[1..][j] == names[j + 1];
        }
      }
      VisitsFromOrder(a, names[1..]);
      VisitsFromOuter(a, names[1..]);
      VisitsOfOuter(a, n);
      forall k | 0 <= k < |rest| ensures LexLe(n, rest[k].outer) {
        var m :| 0 <= m < |names[1..]| && names[1..][m] == rest[k].outer;
        assert names[m + 1] == rest[k].outer;
      }
      forall k, l | 0 <= k < l < |vs| ensures LexLe(vs[k].outer, vs[l].outer) {
        if l < |head| {
          assert vs[k] == head[k] && vs[l] == head[l];
          LexLeRefl(n);
        } else if k < |head| {
          assert vs[k] == head[k] && vs[l] == rest[l - |head|];
        } else {
          assert vs[k] == rest[k - |head|] && vs[l] == rest[l - |head|];
        }
      }
    }
  }

  /** Every `.csv` name in the list is opened, reading the last entry of that name. */
  lemma {:induction false} CsvVisitsContain(outer: string, es: seq<InnerEntry>, names: seq<string>, x: string)
    requires forall y :: y in names ==> y in Names(es)
    requires x in names && EndsWith(x, ".csv")
    ensures CsvVisit(outer, x, Lookup(es, x)) in CsvVisits(outer, es, names)
  {
    if names[0] != x {
      CsvVisitsContain(outer, es, names[1..], x);
    }
  }

  /** The visits made for a name in the list are among the visits made for the list. */
  lemma {:induction false} VisitsFromContain(a: seq<OuterEntry>, names: seq<string>, n: string, v: Visit)
    requires forall y :: y in names ==> y in Names(a)
    requires n in names && v in VisitsOf(a, n)
    ensures v in VisitsFrom(a, names)
  {
    if names[0] != n {
      VisitsFromContain(a, names[1..], n, v);
    }
  }

  /** The walk goes through the yearly archive's entries in sorted name order: the inner
      archive names of its visits never decrease, and each is a name of the archive.
      It leaves nothing out: every entry that is not a zip archive is visited, and so is
      every `.csv` name of every inner archive, with the last entry of that name. */
  lemma VisitsOuterOrder(a: seq<OuterEntry>)
    ensures forall k :: 0 <= k < |Visits(a)| ==> Visits(a)[k].outer in Names(a)
    ensures forall k, l :: 0 <= k < l < |Visits(a)| ==> LexLe(Visits(a)[k].outer, Visits(a)[l].outer)
    ensures forall n :: n in Names(a) && Lookup(a, n).NotZip? ==> NotAnArchive(n) in Visits(a)
    ensures forall n, x ::
      n in Names(a) && Lookup(a, n).Zip? && x in Names(Lookup(a, n).entries) && EndsWith(x, ".csv")
      ==> CsvVisit(n, x, Lookup(Lookup(a, n).entries, x)) in Visits(a)
  {
    SortSorted(Names(a));
    SortMembers(Names(a));
    VisitsFromOuter(a, Sort(Names(a)));
    VisitsFromOrder(a, Sort(Names(a)));
    forall n | n in Names(a) && Lookup(a, n).NotZip? ensures NotAnArchive(n) in Visits(a) {
      VisitsFromContain(a, Sort(Names(a)), n, NotAnArchive(n));
    }
    forall n, x | n in Names(a) && Lookup(a, n).Zip? && x in Names(Lookup(a, n).entries) && EndsWith(x, ".csv")
      ensures CsvVisit(n, x, Lookup(Lookup(a, n).entries, x)) in Visits(a)
    {
      var es := Lookup(a, n).entries;
      SortMembers(Names(es));
      CsvVisitsContain(n, es, Sort(Names(es)), x);
      VisitsFromContain(a, Sort(Names(a)), n, CsvVisit(n, x, Lookup(es, x)));
    }
  }

  // ---------------------------------------------------------------------------
  // The walk, as the program runs it

  /** The outer loop of `process_zip_file`: each inner archive in sorted name order,
      then `pd.concat(dfs)`. */
  method ProcessZipFile(path: string, y: YearlyData, selected: seq<int>)
    returns (r: Result<seq<LongRow>, WalkError>)
    ensures r == ProcessZip(path, y, selected)
  {
    if y.NotZipArchive? {
      return Failure(BadArchive(path));
    }
    var archive := y.entries;
    var dfs: seq<seq<LongRow>> := [];
    var outerNames := Sort(Names(archive));
    SortMembers(Names(archive));
    var i := 0;
    while i < |outerNames|
      invariant 0 <= i <= |outerNames|
      invariant Dfs(VisitsFrom(archive, outerNames[..i]), selected) == Success(dfs)
    {
      var outerName := outerNames[i];
      match Lookup(archive, outerName)
      case NotZip =>
        OuterFails(archive, outerNames, i, selected);
        r := Failure(BadInnerArchive(outerName));
        return;
      case Zip(entries) =>
        OuterAdvance(archive, outerNames, i, entries, selected);
        var res := ProcessChildZip(outerName, entries, selected, VisitsFrom(archive, outerNames[..i]), dfs);
        if res.Failure? {
          r := Failure(res.error);
          return;
        }
        dfs := res.value;
      i := i + 1;
    }
    assert outerNames[..i] == outerNames;
    if dfs == [] {
      r := Failure(NoObjectsToConcatenate);
    } else {
      r := Success(Flatten(dfs));
    }
  }

  /** The inner loop of `process_zip_file`: the `.csv` entries of one inner archive in
      sorted name order, each table appended to `dfs`. `before` are the visits already
      made, which produced `dfs0`. */
  method ProcessChildZip(outerName: string, entries: seq<InnerEntry>, selected: seq<int>,
                         ghost before: seq<Visit>, dfs0: seq<seq<LongRow>>)
    returns (r: Result<seq<seq<LongRow>>, WalkError>)
    requires Dfs(before, selected) == Success(dfs0)
    ensures r == Dfs(before + ChildVisits(outerName, entries), selected)
  {
    var innerNames := Sort(Names(entries));
    SortMembers(Names(entries));
    r := ProcessCsvEntries(outerName, entries, innerNames, selected, before, dfs0);
  }

  /** The entries of one inner archive named in `innerNames`, in that order: each `.csv`
      entry's table appended to `dfs`, the first unreadable one raising. */
  method ProcessCsvEntries(outerName: string, entries: seq<InnerEntry>, innerNames: seq<string>,
                           selected: seq<int>, ghost before: seq<Visit>, dfs0: seq<seq<LongRow>>)
    returns (r: Result<seq<seq<LongRow>>, WalkError>)
    requires forall x :: x in innerNames ==> x in Names(entries)
    requires Dfs(before, selected) == Success(dfs0)
    ensures r == Dfs(before + CsvVisits(outerName, entries, innerNames), selected)
  {
    var dfs := dfs0;
    assert innerNames[..0] == [] && before + [] == before;
    var j := 0;
    while j < |innerNames|
      invariant 0 <= j <= |innerNames|
      invariant Dfs(before + CsvVisits(outerName, entries, innerNames[..j]), selected) == Success(dfs)
    {
      var csvName := innerNames[j];
      InnerAdvance(before, outerName, entries, innerNames, j, selected);
      if EndsWith(csvName, ".csv") {
        var data := Lookup(entries, csvName);
        if data.Unreadable? {
          r := Failure(BadCsv(csvName));
          return;
        }
        var df := ProcessCsv(data.rows, selected);
        dfs := dfs + [df];
      }
      j := j + 1;
    }
    assert innerNames[..j] == innerNames;
    r := Success(dfs);
  }
}
