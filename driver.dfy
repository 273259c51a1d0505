/** `main`: the yearly archives of the data directory, in sorted name order, each walked
    with the selected sites and written to a file named after the year taken from the
    archive's name. Reading the directory and writing files are not modelled: the
    directory is given as a sequence of named archives and the run returns the files it
    writes, in order. */
module Driver {
  import opened Common
  import opened Text
  import opened Sites
  import opened Cleaning
  import opened Archive

  // ---------------------------------------------------------------------------
  // Names

  /** `str.rfind(c)`: the position of the last `c` in `s`, if any. */
  function LastIndexOf(s: string, c: char): (r: Option<nat>)
    ensures r.Some? ==> r.value < |s| && s[r.value] == c && forall j :: r.value < j < |s| ==> s[j] != c
    ensures r.None? ==> forall j :: 0 <= j < |s| ==> s[j] != c
  {
    if s == [] then None
    else if s[|s| - 1] == c then Some(|s| - 1)
    else LastIndexOf(s[..|s| - 1], c)
  }

  /** `PurePath.stem` of a file name: the name without its last suffix. A dot at the
      start or at the end of the name does not start a suffix. */
  function Stem(name: string): (r: string)
    ensures r <= name
  {
    match LastIndexOf(name, '.')
    case Some(i) => if 0 < i < |name| - 1 then name[..i] else name
    case None => name
  }

  /** `stem[-4:]`: the last four characters, or the whole stem when it is shorter. */
  function Year(stem: string): (y: string)
    ensures |y| == Min(|stem|, 4)
    ensures stem == stem[..|stem| - |y|] + y
  {
    if |stem| <= 4 then stem else stem[|stem| - 4..]
  }

  /** `f"traffic_volume_{year}.parquet"`. */
  function OutputName(year: string): (r: string)
    ensures |r| == |year| + 23
    ensures r[..15] == "traffic_volume_" && r[15..|r| - 8] == year && r[|r| - 8..] == ".parquet"
  {
    "traffic_volume_" + year + ".parquet"
  }

  /** The stem of `base.zip` is `base`, whatever dots `base` holds. */
  lemma StemOfZip(base: string)
    requires base != []
    ensures Stem(base + ".zip") == base
  {
    var name := base + ".zip";
    var n := |base|;
    assert name[n] == '.' && name[n + 1] == 'z' && name[n + 2] == 'i' && name[n + 3] == 'p';
    var r := LastIndexOf(name, '.');
    assert r.Some? && r.value == n;
    assert name[..n] == base;
  }

  /** An archive named `<anything><year>.zip`, with a four-character year, is written to
      the file of that year. */
  lemma YearOfArchiveName(prefix: string, year: string)
    requires |year| == 4
    ensures Year(Stem(prefix + year + ".zip")) == year
    ensures OutputName(Year(Stem(prefix + year + ".zip"))) == "traffic_volume_" + year + ".parquet"
  {
    StemOfZip(prefix + year);
    var s := prefix + year;
    assert s[|s| - 4..] == year;
  }

  /** Distinct years give distinct output files. */
  lemma OutputNameInjective(y1: string, y2: string)
    requires OutputName(y1) == OutputName(y2)
    ensures y1 == y2
  {
    var n1 := OutputName(y1);
    var n2 := OutputName(y2);
    assert |y1| == |y2|;
    assert y1 == n1[15..|n1| - 8];
    assert y2 == n2[15..|n2| - 8];
  }

  // ---------------------------------------------------------------------------
  // The run

  /** A file of the data directory: its name and what it holds. */
  type ZipFile = Named<YearlyData>

  /** A file written by the run: its name and its rows. */
  datatype Output = Output(path: string, rows: seq<LongRow>)

  /** What a run leaves behind: the files written, in order, and the error that stopped
      it, if one did. */
  datatype RunResult = RunResult(written: seq<Output>, failure: Option<WalkError>)

  /** The run over a sequence of archives, given the path each is written to and the
      outcome of walking it: every archive walked is written to its path; the first walk
      that raises ends the run, and the files written before it remain. */
  function RunOver(paths: seq<string>, outcomes: seq<Result<seq<LongRow>, WalkError>>): RunResult
    requires |paths| == |outcomes|
  {
    if paths == [] then RunResult([], None)
    else
      match outcomes[0]
      case Failure(e) => RunResult([], Some(e))
      case Success(rows) =>
        var rest := RunOver(paths[1..], outcomes[1..]);
        RunResult([Output(paths[0], rows)] + rest.written, rest.failure)
  }

  /** The file an archive of the given name is written to. */
  function PathOf(name: string): string
  {
    OutputName(Year(Stem(name)))
  }

  /** The output file of each named archive. */
  function Paths(names: seq<string>): (r: seq<string>)
    ensures |r| == |names|
  {
    seq(|names|, k requires 0 <= k < |names| => PathOf(names[k]))
  }

  /** The walk of each named archive. */
  function Outcomes(files: seq<ZipFile>, names: seq<string>, selected: seq<int>)
    : (r: seq<Result<seq<LongRow>, WalkError>>)
    requires forall x :: x in names ==> x in Names(files)
    ensures |r| == |names|
  {
    seq(|names|, k requires 0 <= k < |names| => ProcessZip(names[k], Lookup(files, names[k]), selected))
  }

  /** `main`, as a function of the site table and the data directory. */
  function RunSpec(table: seq<SiteRecord>, files: seq<ZipFile>): (r: RunResult)
    ensures |r.written| <= |files|
    ensures r.failure.None? <==> |r.written| == |files|
  {
    SortMembers(Names(files));
    var names := Sort(Names(files));
    RunOverSpec(Paths(names), Outcomes(files, names, SelectSites(table)));
    RunOver(Paths(names), Outcomes(files, names, SelectSites(table)))
  }

  /** The run writes, for a prefix of the archives in order, the rows of each walk to its
      path; it stops early exactly when a walk raises, with that error. */
  lemma {:induction false} RunOverSpec(paths: seq<string>, outcomes: seq<Result<seq<LongRow>, WalkError>>)
    requires |paths| == |outcomes|
    ensures var r := RunOver(paths, outcomes);
      |r.written| <= |paths|
      && (r.failure.None? <==> |r.written| == |paths|)
      && (forall k :: 0 <= k < |r.written| ==> outcomes[k].Success? && r.written[k] == Output(paths[k], outcomes[k].value))
      && (r.failure.Some? ==> outcomes[|r.written|] == Failure(r.failure.value))
  {
    if paths != [] && outcomes[0].Success? {
      RunOverSpec(paths[1..], outcomes[1..]);
      var r := RunOver(paths, outcomes);
      forall k | 1 <= k < |r.written|
        ensures outcomes[k].Success? && r.written[k] == Output(paths[k], outcomes[k].value)
      {
        TailAt(r.written, k);
        TailAt(paths, k);
        TailAt(outcomes, k);
      }
      if r.failure.Some? {
        TailAt(outcomes, |r.written|);
      }
    }
  }

  /** `main` walks the archives in sorted name order and writes each one's rows to the
      file of its year (how many it writes, and when, is in the contract of `RunSpec`). */
  lemma RunSpecWrites(table: seq<SiteRecord>, files: seq<ZipFile>)
    ensures var names := Sort(Names(files));
      |names| == |files| && (forall x :: x in names ==> x in Names(files))
      && var outcomes := Outcomes(files, names, SelectSites(table));
      var r := RunSpec(table, files);
      forall k :: 0 <= k < |r.written| ==>
        outcomes[k].Success? && r.written[k] == Output(PathOf(names[k]), outcomes[k].value)
  {
    SortMembers(Names(files));
    var names := Sort(Names(files));
    var paths := Paths(names);
    var outcomes := Outcomes(files, names, SelectSites(table));
    var r := RunOver(paths, outcomes);
    assert RunSpec(table, files) == r;
    RunOverSpec(paths, outcomes);
    forall k | 0 <= k < |r.written|
      ensures outcomes[k].Success? && r.written[k] == Output(PathOf(names[k]), outcomes[k].value)
    {
      assert paths[k] == PathOf(names[k]);
    }
  }

  /** A run that stops early stops at the first archive whose walk raises, with that
      archive's error; the files already written remain. */
  lemma RunSpecStops(table: seq<SiteRecord>, files: seq<ZipFile>)
    ensures var names := Sort(Names(files));
      |names| == |files| && (forall x :: x in names ==> x in Names(files))
      && var outcomes := Outcomes(files, names, SelectSites(table));
      var r := RunSpec(table, files);
      r.failure.Some? ==> outcomes[|r.written|] == Failure(r.failure.value)
  {
    SortMembers(Names(files));
    var names := Sort(Names(files));
    RunOverSpec(Paths(names), Outcomes(files, names, SelectSites(table)));
  }

  /** The files `w` written before a run that left `r`. */
  function Prepend(w: seq<Output>, r: RunResult): RunResult
  {
    RunResult(w + r.written, r.failure)
  }

  /** Part way through a run: the files `written` for the first `i` archives, followed by
      the run over the rest, make up the whole run. */
  predicate RunSoFar(paths: seq<string>, outcomes: seq<Result<seq<LongRow>, WalkError>>, i: nat, written: seq<Output>)
  {
    |paths| == |outcomes| && i <= |paths|
    && RunOver(paths, outcomes) == Prepend(written, RunOver(paths[i..], outcomes[i..]))
  }

  /** Before the first archive nothing is written. */
  lemma RunStarts(paths: seq<string>, outcomes: seq<Result<seq<LongRow>, WalkError>>)
    requires |paths| == |outcomes|
    ensures RunSoFar(paths, outcomes, 0, [])
  {
    assert paths[0..] == paths && outcomes[0..] == outcomes;
    assert [] + RunOver(paths, outcomes).written == RunOver(paths, outcomes).written;
  }

  /** After the last archive nothing more is written and nothing fails. */
  lemma RunEnds(paths: seq<string>, outcomes: seq<Result<seq<LongRow>, WalkError>>, written: seq<Output>)
    requires RunSoFar(paths, outcomes, |paths|, written)
    ensures RunOver(paths, outcomes) == RunResult(written, None)
  {
    assert paths[|paths|..] == [] && outcomes[|paths|..] == [];
    assert written + [] == written;
  }

  /** One archive of a run: a walk that raises stops the run, one that succeeds writes
      one file and the run goes on with the next archive. */
  lemma RunAdvance(paths: seq<string>, outcomes: seq<Result<seq<LongRow>, WalkError>>, i: nat, written: seq<Output>)
    requires RunSoFar(paths, outcomes, i, written) && i < |paths|
    ensures outcomes[i].Failure? ==> RunOver(paths, outcomes) == RunResult(written, Some(outcomes[i].error))
    ensures outcomes[i].Success? ==> RunSoFar(paths, outcomes, i + 1, written + [Output(paths[i], outcomes[i].value)])
  {
    assert paths[i..][0] == paths[i] && paths[i..][1..] == paths[i + 1..];
    assert outcomes[i..][0] == outcomes[i] && outcomes[i..][1..] == outcomes[i + 1..];
    if outcomes[i].Failure? {
      assert written + [] == written;
    } else {
      ConcatAssoc(written, [Output(paths[i], outcomes[i].value)], RunOver(paths[i + 1..], outcomes[i + 1..]).written);
    }
  }

  /** `main`: the archives in sorted name order, each walked and then written to the file
      of its year. */
  method Run(table: seq<SiteRecord>, files: seq<ZipFile>) returns (r: RunResult)
    ensures r == RunSpec(table, files)
  {
    var selected := SelectSites(table);
    var names := Sort(Names(files));
    SortMembers(Names(files));
    r := RunArchives(files, names, selected, Outcomes(files, names, selected));
  }

  /** The loop of `main` over the sorted archive names. */
  method RunArchives(files: seq<ZipFile>, names: seq<string>, selected: seq<int>,
                     ghost outcomes: seq<Result<seq<LongRow>, WalkError>>)
    returns (r: RunResult)
    requires forall x :: x in names ==> x in Names(files)
    requires |outcomes| == |names|
    requires forall k :: 0 <= k < |names| ==> outcomes[k] == ProcessZip(names[k], Lookup(files, names[k]), selected)
    ensures r == RunOver(Paths(names), outcomes)
  {
    ghost var paths := Paths(names);
    var written: seq<Output> := [];
    RunStarts(paths, outcomes);
    for i := 0 to |names|
      invariant RunSoFar(paths, outcomes, i, written)
    {
      var rows := ProcessZipFile(names[i], Lookup(files, names[i]), selected);
      RunAdvance(paths, outcomes, i, written);
      if rows.Failure? {
        return RunResult(written, Some(rows.error));
      }
      written := written + [Output(OutputName(Year(Stem(names[i]))), rows.value)];
    }
    RunEnds(paths, outcomes, written);
    r := RunResult(written, None);
  }
}
