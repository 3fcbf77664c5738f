/** Listing and reading logs without raising on I/O errors: `_cat_log`
    yields a log's lines until the read fails, and `_ls_logs` walks groups
    of redundant log directories, matching every listed path and stopping
    after the first group that matched anything. */
module Wrap {

  type Path = string

  /** The dictionary a matcher returns for a path it recognises. */
  type Record = map<string, string>

  /** The key `_ls_logs` sets on every record it yields. */
  const PATH := "path"

  datatype Option<+T> = None | Some(value: T)

  /** One step of a filesystem generator (`fs.ls(dir)` or `fs.cat(path)`):
      an item, or the IOError that ends the generator. */
  datatype Step = Item(value: string) | IOError

  /** The filesystem, as the steps its two generators produce for each
      argument. Line decoding (`to_string`) is taken to be already done. */
  datatype Filesystem = Filesystem(ls: Path -> seq<Step>, cat: Path -> seq<Step>)

  /** A warning logged instead of raising. */
  datatype Warning = CouldNotCat(path: Path) | CouldNotLs(dir: Path)

  /** An element of `log_dir_stream`: a list of directories, or a plain
      string passed by mistake. */
  datatype Group = Dirs(dirs: seq<Path>) | Str(text: string)

  /** What a run of `_ls_logs` makes observable: the records it yields, the
      warnings it logs, the directories it lists, and whether it ends by
      raising TypeError. */
  datatype Trace = Trace(records: seq<Record>, warnings: seq<Warning>, listed: seq<Path>, typeError: bool)

  const Empty := Trace([], [], [], false)

  /** `a` followed by `b`. */
  function Then(a: Trace, b: Trace): Trace
  {
    Trace(a.records + b.records, a.warnings + b.warnings, a.listed + b.listed, a.typeError || b.typeError)
  }

  lemma ThenAssoc(a: Trace, b: Trace, c: Trace)
    ensures Then(Then(a, b), c) == Then(a, Then(b, c))
  {
    assert (a.records + b.records) + c.records == a.records + (b.records + c.records);
    assert (a.warnings + b.warnings) + c.warnings == a.warnings + (b.warnings + c.warnings);
    assert (a.listed + b.listed) + c.listed == a.listed + (b.listed + c.listed);
  }

  lemma ThenEmpty(a: Trace)
    ensures Then(a, Empty) == a
  {
    assert a.records + [] == a.records;
    assert a.warnings + [] == a.warnings;
    assert a.listed + [] == a.listed;
  }

  // ---------------------------------------------------------------------
  // Reading a generator until its first IOError

  /** The items a generator yields before its first IOError. */
  function BeforeError(steps: seq<Step>): (items: seq<string>)
    ensures |items| <= |steps|
    ensures forall i :: 0 <= i < |items| ==> steps[i] == Item(items[i])
    ensures |items| < |steps| ==> steps[|items|] == IOError
  {
    if steps == [] then []
    else match steps[0]
      case IOError => []
      case Item(x) => [x] + BeforeError(steps[1..])
  }

  /** What BeforeError keeps is exactly a prefix of the steps, all of them
      items, ended by the first IOError or by the end of the steps. */
  lemma {:induction false} BeforeErrorIsPrefix(steps: seq<Step>)
    ensures var items := BeforeError(steps);
      && |items| <= |steps|
      && (forall i :: 0 <= i < |items| ==> steps[i] == Item(items[i]))
      && (|items| == |steps| || steps[|items|] == IOError)
      && (IOError in steps <==> |items| < |steps|)
  {
    if steps != [] && steps[0].Item? {
      BeforeErrorIsPrefix(steps[1..]);
      assert steps == [steps[0]] + steps[1..];
    }
  }

  /** The `try: for x in gen: yield x / except IOError` loop shared by
      `_cat_log` and `_fs_ls`: the items up to the first IOError, and
      whether one was raised. */
  method ReadUntilError(steps: seq<Step>) returns (items: seq<string>, failed: bool)
    ensures items == BeforeError(steps)
    ensures failed <==> IOError in steps
  {
    ghost var all := BeforeError(steps);
    items, failed := [], false;
    var i := 0;
    BeforeErrorIsPrefix(steps);
    while i < |steps| && !failed
      invariant 0 <= i <= |steps|
      invariant !failed ==> i <= |all| && items == all[..i]
      invariant failed ==> i == |all| + 1 && items == all && steps[|all|] == IOError
      decreases |steps| - i
    {
      match steps[i] {
        case Item(x) =>
          items := items + [x];
        case IOError =>
          failed := true;
      }
      i := i + 1;
    }
    if !failed {
      assert items == all;
    }
  }

  /** `_cat_log(fs, path)`: the lines of the log up to the first read
      error, never raising; a failed read logs one warning naming the path. */
  method CatLog(fs: Filesystem, path: Path) returns (lines: seq<string>, warnings: seq<Warning>)
    ensures lines == BeforeError(fs.cat(path))
    ensures warnings == if IOError in fs.cat(path) then [CouldNotCat(path)] else []
  {
    var failed;
    lines, failed := ReadUntilError(fs.cat(path));
    warnings := if failed then [CouldNotCat(path)] else [];
  }

  /** `_fs_ls(log_dir)` inside `_ls_logs`: the paths listed up to the first
      listing error; a failed listing logs one warning naming the directory. */
  method FsLs(fs: Filesystem, dir: Path) returns (paths: seq<Path>, warnings: seq<Warning>)
    ensures paths == BeforeError(fs.ls(dir))
    ensures warnings == if IOError in fs.ls(dir) then [CouldNotLs(dir)] else []
  {
    var failed;
    paths, failed := ReadUntilError(fs.ls(dir));
    warnings := if failed then [CouldNotLs(dir)] else [];
  }

  // ---------------------------------------------------------------------
  // Matching listed paths

  /** The paths the matcher recognises (returns a dictionary for), in order:
      every listed path the matcher recognises, and nothing else. */
  function MatchedPaths(paths: seq<Path>, matcher: Path -> Option<Record>): (r: seq<Path>)
    ensures |r| <= |paths|
    ensures forall p :: p in r ==> p in paths && matcher(p).Some?
    ensures forall i :: 0 <= i < |paths| && matcher(paths[i]).Some? ==> paths[i] in r
  {
    if paths == [] then []
    else
      var p := paths[|paths| - 1];
      MatchedPaths(paths[..|paths| - 1], matcher) + (if matcher(p).Some? then [p] else [])
  }

  /** Each recognised path is kept as many times as it is listed, and an
      unrecognised one not at all. */
  lemma {:induction false} MatchedPathsCount(paths: seq<Path>, matcher: Path -> Option<Record>, p: Path)
    ensures multiset(MatchedPaths(paths, matcher))[p] == if matcher(p).Some? then multiset(paths)[p] else 0
  {
    if paths != [] {
      var n := |paths| - 1;
      MatchedPathsCount(paths[..n], matcher, p);
      assert paths == paths[..n] + [paths[n]];
    }
  }

  /** The records yielded for `paths`: one per recognised path, each
      carrying under `path` a listed path that the matcher recognises. */
  function MatchPaths(paths: seq<Path>, matcher: Path -> Option<Record>): (records: seq<Record>)
    ensures |records| == |MatchedPaths(paths, matcher)|
    ensures forall rec :: rec in records ==> PATH in rec && rec[PATH] in paths && matcher(rec[PATH]).Some?
  {
    if paths == [] then []
    else
      var p := paths[|paths| - 1];
      MatchPaths(paths[..|paths| - 1], matcher)
        + (match matcher(p) case Some(m) => [m[PATH := p]] case None => [])
  }

  /** One record per path the matcher recognises, in listing order, each the
      matcher's dictionary with `path` set to that path (replacing any `path`
      the matcher put there). */
  lemma {:induction false} MatchPathsSpec(paths: seq<Path>, matcher: Path -> Option<Record>)
    ensures var records, matched := MatchPaths(paths, matcher), MatchedPaths(paths, matcher);
      && |records| == |matched| <= |paths|
      && forall i :: 0 <= i < |records| ==>
        && matcher(matched[i]).Some?
        && records[i] == matcher(matched[i]).value[PATH := matched[i]]
        && records[i][PATH] == matched[i]
  {
    if paths != [] {
      MatchPathsSpec(paths[..|paths| - 1], matcher);
    }
  }

  lemma {:induction false} MatchPathsAppend(a: seq<Path>, b: seq<Path>, matcher: Path -> Option<Record>)
    ensures MatchPaths(a + b, matcher) == MatchPaths(a, matcher) + MatchPaths(b, matcher)
    decreases |b|
  {
    if b == [] {
      assert a + b == a;
    } else {
      var n := |b| - 1;
      assert (a + b)[..|a + b| - 1] == a + b[..n];
      assert (a + b)[|a + b| - 1] == b[n];
      MatchPathsAppend(a, b[..n], matcher);
    }
  }

  // ---------------------------------------------------------------------
  // The traversal of `_ls_logs`

  /** What one directory contributes: it is listed, the paths listed before
      any error are matched, and a listing error adds one warning. */
  function DirTrace(fs: Filesystem, matcher: Path -> Option<Record>, dir: Path): (t: Trace)
    ensures t.listed == [dir] && !t.typeError
    ensures |t.records| <= |fs.ls(dir)|
    ensures forall rec :: rec in t.records ==> PATH in rec && matcher(rec[PATH]).Some?
    ensures t.warnings == [] || t.warnings == [CouldNotLs(dir)]
    ensures t.warnings != [] <==> IOError in fs.ls(dir)
  {
    Trace(
      MatchPaths(BeforeError(fs.ls(dir)), matcher),
      if IOError in fs.ls(dir) then [CouldNotLs(dir)] else [],
      [dir],
      false)
  }

  /** DirTrace of every directory, for one filesystem and one matcher. The
      traversal below is written over such a function, so that its structure
      is reasoned about apart from what a single directory yields. */
  function DirTraces(fs: Filesystem, matcher: Path -> Option<Record>): Path -> Trace
  {
    dir => DirTrace(fs, matcher, dir)
  }

  /** Each directory's contribution lists that directory and never raises. */
  ghost predicate ListsItself(dirTrace: Path -> Trace)
  {
    forall dir :: dirTrace(dir).listed == [dir] && !dirTrace(dir).typeError
  }

  lemma DirTracesListThemselves(fs: Filesystem, matcher: Path -> Option<Record>)
    ensures ListsItself(DirTraces(fs, matcher))
  {
  }

  /** What a group of directories contributes: each directory in turn. */
  function GroupTrace(dirTrace: Path -> Trace, dirs: seq<Path>): (t: Trace)
    ensures ListsItself(dirTrace) ==> t.listed == dirs && !t.typeError
  {
    if dirs == [] then Empty
    else Then(GroupTrace(dirTrace, dirs[..|dirs| - 1]), dirTrace(dirs[|dirs| - 1]))
  }

  /** A run is over once a group matched something or a plain string was met. */
  predicate Stopped(t: Trace)
  {
    t.records != [] || t.typeError
  }

  /** `_ls_logs(fs, log_dir_stream, matcher)`: the groups in order, until one
      yields a record (that group is still finished) or is a plain string
      (TypeError, before any of it is listed). */
  function LsLogsSpec(dirTrace: Path -> Trace, groups: seq<Group>): (r: Trace)
    ensures !Stopped(r) ==> forall i :: 0 <= i < |groups| ==> groups[i].Dirs?
  {
    if groups == [] then Empty
    else Advance(dirTrace, LsLogsSpec(dirTrace, groups[..|groups| - 1]), groups[|groups| - 1])
  }

  /** One iteration of the outer loop of `_ls_logs`, after the run so far:
      a stopped run stays as it is, a running one only grows, and a plain
      string raises before anything more is listed or yielded. */
  function Advance(dirTrace: Path -> Trace, before: Trace, g: Group): (r: Trace)
    ensures Stopped(before) ==> r == before
    ensures before.records <= r.records && before.warnings <= r.warnings && before.listed <= r.listed
    ensures !Stopped(before) && g.Str? ==> r.typeError && r.records == before.records && r.listed == before.listed
  {
    if Stopped(before) then before
    else match g
      case Str(_) => before.(typeError := true)
      case Dirs(dirs) => Then(before, GroupTrace(dirTrace, dirs))
  }

  /** The innermost loop of `_ls_logs`: match each listed path in turn and
      yield the matcher's dictionary with `path` set. */
  method MatchListing(paths: seq<Path>, matcher: Path -> Option<Record>) returns (records: seq<Record>)
    ensures records == MatchPaths(paths, matcher)
  {
    records := [];
    var k := 0;
    while k < |paths|
      invariant 0 <= k <= |paths|
      invariant records == MatchPaths(paths[..k], matcher)
    {
      var path := paths[k];
      var m := matcher(path);
      assert paths[..k + 1][..k] == paths[..k];
      if m.Some? {
        records := records + [m.value[PATH := path]];
      }
      k := k + 1;
    }
    assert paths[..k] == paths;
  }

  /** The loop of `_ls_logs` over one group of directories: list each
      directory, match what is listed, and note whether anything matched. */
  method LsGroup(fs: Filesystem, dirs: seq<Path>, matcher: Path -> Option<Record>)
    returns (records: seq<Record>, warnings: seq<Warning>, listed: seq<Path>, matched: bool)
    ensures records == GroupTrace(DirTraces(fs, matcher), dirs).records
    ensures warnings == GroupTrace(DirTraces(fs, matcher), dirs).warnings
    ensures listed == GroupTrace(DirTraces(fs, matcher), dirs).listed
    ensures matched <==> records != []
  {
    ghost var dt := DirTraces(fs, matcher);
    records, warnings, listed, matched := [], [], [], false;
    var j := 0;
    while j < |dirs|
      invariant 0 <= j <= |dirs|
      invariant records == GroupTrace(dt, dirs[..j]).records
      invariant warnings == GroupTrace(dt, dirs[..j]).warnings
      invariant listed == GroupTrace(dt, dirs[..j]).listed
      invariant matched <==> records != []
    {
      var dir := dirs[j];
      var paths, dirWarnings := FsLs(fs, dir);
      listed := listed + [dir];
      var dirRecords := MatchListing(paths, matcher);
      if dirRecords != [] {
        matched := true;
      }
      records := records + dirRecords;
      warnings := warnings + dirWarnings;
      GroupTraceStep(dt, dirs, j);
      assert dt(dir) == DirTrace(fs, matcher, dir);
      j := j + 1;
    }
    assert dirs[..j] == dirs;
  }

  /** The group trace of one more directory. */
  lemma GroupTraceStep(dt: Path -> Trace, dirs: seq<Path>, j: nat)
    requires j < |dirs|
    ensures GroupTrace(dt, dirs[..j + 1]) == Then(GroupTrace(dt, dirs[..j]), dt(dirs[j]))
  {
    assert dirs[..j + 1][..j] == dirs[..j];
  }

  /** `_ls_logs`, loop for loop. */
  method LsLogs(fs: Filesystem, groups: seq<Group>, matcher: Path -> Option<Record>) returns (t: Trace)
    ensures t == LsLogsSpec(DirTraces(fs, matcher), groups)
  {
    ghost var dt := DirTraces(fs, matcher);
    DirTracesListThemselves(fs, matcher);
    var warnings: seq<Warning>, listed: seq<Path> := [], [];
    var i := 0;
    while i < |groups|
      invariant 0 <= i <= |groups|
      invariant LsLogsSpec(dt, groups[..i]) == Trace([], warnings, listed, false)
    {
      assert groups[..i + 1][..i] == groups[..i];
      match groups[i]
      case Str(_) =>
        LsLogsStopsAtPrefix(dt, groups, i + 1);
        return Trace([], warnings, listed, true);
      case Dirs(dirs) =>
        var records, groupWarnings, groupListed, matched := LsGroup(fs, dirs, matcher);
        GroupNeverRaises(dt, dirs);
        warnings, listed := warnings + groupWarnings, listed + groupListed;
        if matched {
          LsLogsStopsAtPrefix(dt, groups, i + 1);
          return Trace(records, warnings, listed, false);
        }
      i := i + 1;
    }
    assert groups[..i] == groups;
    return Trace([], warnings, listed, false);
  }

  // ---------------------------------------------------------------------
  // Properties of the traversal

  /** Once the groups before the cut have stopped the run, the groups after
      it make no difference; otherwise the run goes on with them exactly as
      a run over them alone would. */
  lemma {:induction false} LsLogsAppend(dt: Path -> Trace, g1: seq<Group>, g2: seq<Group>)
    ensures var t1 := LsLogsSpec(dt, g1);
      LsLogsSpec(dt, g1 + g2) == if Stopped(t1) then t1 else Then(t1, LsLogsSpec(dt, g2))
    decreases |g2|
  {
    var t1 := LsLogsSpec(dt, g1);
    if g2 == [] {
      assert g1 + g2 == g1;
      ThenEmpty(t1);
    } else {
      var n := |g2| - 1;
      assert (g1 + g2)[..|g1 + g2| - 1] == g1 + g2[..n];
      assert (g1 + g2)[|g1 + g2| - 1] == g2[n];
      LsLogsAppend(dt, g1, g2[..n]);
      if !Stopped(t1) {
        AdvanceAfter(dt, t1, LsLogsSpec(dt, g2[..n]), g2[n]);
      }
    }
  }

  /** Advancing a run that continues a run which did not stop. */
  lemma AdvanceAfter(dt: Path -> Trace, t1: Trace, t2: Trace, g: Group)
    requires !Stopped(t1)
    ensures Advance(dt, Then(t1, t2), g) == Then(t1, Advance(dt, t2, g))
  {
    if !Stopped(t2) && g.Dirs? {
      ThenAssoc(t1, t2, GroupTrace(dt, g.dirs));
    }
  }

  /** The run over all groups equals the run over a prefix that stopped. */
  lemma LsLogsStopsAtPrefix(dt: Path -> Trace, groups: seq<Group>, n: nat)
    requires n <= |groups|
    requires Stopped(LsLogsSpec(dt, groups[..n]))
    ensures LsLogsSpec(dt, groups) == LsLogsSpec(dt, groups[..n])
  {
    assert groups == groups[..n] + groups[n..];
    LsLogsAppend(dt, groups[..n], groups[n..]);
  }

  /** The run over one group after groups that did not stop the run. */
  lemma LsLogsOneMore(dt: Path -> Trace, before: seq<Group>, g: Group)
    requires !Stopped(LsLogsSpec(dt, before))
    ensures g.Str? ==> LsLogsSpec(dt, before + [g]) == LsLogsSpec(dt, before).(typeError := true)
    ensures g.Dirs? ==> LsLogsSpec(dt, before + [g]) == Then(LsLogsSpec(dt, before), GroupTrace(dt, g.dirs))
  {
    assert (before + [g])[..|before|] == before;
  }

  /** The first group that matches anything ends the run: it is processed
      completely, and no later group is listed. */
  lemma FirstMatchingGroupIsLast(dt: Path -> Trace, before: seq<Group>, dirs: seq<Path>, after: seq<Group>)
    requires !Stopped(LsLogsSpec(dt, before))
    requires GroupTrace(dt, dirs).records != []
    ensures LsLogsSpec(dt, before + [Dirs(dirs)] + after)
      == Then(LsLogsSpec(dt, before), GroupTrace(dt, dirs))
  {
    LsLogsOneMore(dt, before, Dirs(dirs));
    LsLogsAppend(dt, before + [Dirs(dirs)], after);
  }

  /** A group that matches nothing lets the run go on with the next group. */
  lemma UnmatchedGroupContinues(dt: Path -> Trace, before: seq<Group>, dirs: seq<Path>, after: seq<Group>)
    requires ListsItself(dt)
    requires !Stopped(LsLogsSpec(dt, before))
    requires GroupTrace(dt, dirs).records == []
    ensures LsLogsSpec(dt, before + [Dirs(dirs)] + after)
      == Then(Then(LsLogsSpec(dt, before), GroupTrace(dt, dirs)), LsLogsSpec(dt, after))
  {
    LsLogsOneMore(dt, before, Dirs(dirs));
    GroupNeverRaises(dt, dirs);
    LsLogsAppend(dt, before + [Dirs(dirs)], after);
  }

  /** A plain string reached as a group raises TypeError at once: none of it
      is listed and nothing after it runs. */
  lemma StrGroupRaises(dt: Path -> Trace, before: seq<Group>, text: string, after: seq<Group>)
    requires !Stopped(LsLogsSpec(dt, before))
    ensures LsLogsSpec(dt, before + [Str(text)] + after)
      == LsLogsSpec(dt, before).(typeError := true)
  {
    LsLogsOneMore(dt, before, Str(text));
    LsLogsAppend(dt, before + [Str(text)], after);
  }

  /** A plain string after a group that matched is never reached. */
  lemma StrGroupAfterMatchNotReached(dt: Path -> Trace, before: seq<Group>, text: string, after: seq<Group>)
    requires ListsItself(dt)
    requires LsLogsSpec(dt, before).records != []
    ensures !LsLogsSpec(dt, before + [Str(text)] + after).typeError
  {
    LsLogsRecordsOrTypeError(dt, before);
    LsLogsAppend(dt, before, [Str(text)] + after);
    assert before + [Str(text)] + after == before + ([Str(text)] + after);
  }

  /** A run never both yields a record and raises TypeError. */
  lemma {:induction false} LsLogsRecordsOrTypeError(dt: Path -> Trace, groups: seq<Group>)
    requires ListsItself(dt)
    ensures !(LsLogsSpec(dt, groups).records != [] && LsLogsSpec(dt, groups).typeError)
    decreases |groups|
  {
    if groups != [] {
      LsLogsRecordsOrTypeError(dt, groups[..|groups| - 1]);
      if groups[|groups| - 1].Dirs? {
        GroupNeverRaises(dt, groups[|groups| - 1].dirs);
      }
    }
  }

  /** The directories of the groups, in order (a plain string has none). */
  function AllDirs(groups: seq<Group>): seq<Path>
  {
    if groups == [] then []
    else AllDirs(groups[..|groups| - 1]) + match groups[|groups| - 1]
      case Dirs(dirs) => dirs
      case Str(_) => []
  }

  /** If no group matches anything and none is a plain string, every
      directory is listed and nothing is yielded. */
  lemma {:induction false} NoMatchListsEverything(dt: Path -> Trace, groups: seq<Group>)
    requires ListsItself(dt)
    requires forall i :: 0 <= i < |groups| ==> groups[i].Dirs? && GroupTrace(dt, groups[i].dirs).records == []
    ensures var t := LsLogsSpec(dt, groups);
      t.records == [] && !t.typeError && t.listed == AllDirs(groups)
    decreases |groups|
  {
    if groups != [] {
      var n := |groups| - 1;
      NoMatchListsEverything(dt, groups[..n]);
      GroupListsEveryDir(dt, groups[n].dirs);
      GroupNeverRaises(dt, groups[n].dirs);
    }
  }

  /** Every directory of a group is listed, whatever fails. */
  lemma {:induction false} GroupListsEveryDir(dt: Path -> Trace, dirs: seq<Path>)
    requires ListsItself(dt)
    ensures GroupTrace(dt, dirs).listed == dirs
    decreases |dirs|
  {
    if dirs != [] {
      var n := |dirs| - 1;
      GroupListsEveryDir(dt, dirs[..n]);
      assert dirs[..n] + [dirs[n]] == dirs;
    }
  }

  /** A group of directories never raises, whatever fails. */
  lemma {:induction false} GroupNeverRaises(dt: Path -> Trace, dirs: seq<Path>)
    requires ListsItself(dt)
    ensures !GroupTrace(dt, dirs).typeError
    decreases |dirs|
  {
    if dirs != [] {
      GroupNeverRaises(dt, dirs[..|dirs| - 1]);
    }
  }

  /** A group processes its directories independently: running two lists
      of directories one after the other is running their concatenation. */
  lemma {:induction false} GroupTraceAppend(dt: Path -> Trace, d1: seq<Path>, d2: seq<Path>)
    ensures GroupTrace(dt, d1 + d2) == Then(GroupTrace(dt, d1), GroupTrace(dt, d2))
    decreases |d2|
  {
    if d2 == [] {
      assert d1 + d2 == d1;
      ThenEmpty(GroupTrace(dt, d1));
    } else {
      var n := |d2| - 1;
      assert (d1 + d2)[..|d1 + d2| - 1] == d1 + d2[..n];
      assert (d1 + d2)[|d1 + d2| - 1] == d2[n];
      GroupTraceAppend(dt, d1, d2[..n]);
      ThenAssoc(GroupTrace(dt, d1), GroupTrace(dt, d2[..n]), dt(d2[n]));
    }
  }

  /** The listing as the generator produces it: `paths`, then maybe more. */
  function Items(paths: seq<Path>): (steps: seq<Step>)
    ensures |steps| == |paths|
    ensures forall i :: 0 <= i < |paths| ==> steps[i] == Item(paths[i])
  {
    seq(|paths|, i requires 0 <= i < |paths| => Item(paths[i]))
  }

  /** Items yielded up to an IOError or the end are read back in full. */
  lemma {:induction false} BeforeErrorOfItems(paths: seq<Path>, rest: seq<Step>)
    requires rest == [] || rest[0] == IOError
    ensures BeforeError(Items(paths) + rest) == paths
  {
    var steps := Items(paths) + rest;
    var items := BeforeError(steps);
    assert rest != [] ==> steps[|paths|] == IOError;
    assert |items| == |paths| by {
      if |items| < |paths| {
        assert false;
      } else if |items| > |paths| {
        assert false;
      }
    }
    assert forall i :: 0 <= i < |paths| ==> steps[i] == Item(paths[i]);
  }

  /** A listing that fails after `paths`: those paths are still matched,
      nothing after the error is, and one warning names the directory. */
  lemma ListingErrorKeepsEarlierPaths(fs: Filesystem, matcher: Path -> Option<Record>, dir: Path, paths: seq<Path>, rest: seq<Step>)
    requires fs.ls(dir) == Items(paths) + [IOError] + rest
    ensures DirTrace(fs, matcher, dir) == Trace(MatchPaths(paths, matcher), [CouldNotLs(dir)], [dir], false)
  {
    assert Items(paths) + [IOError] + rest == Items(paths) + ([IOError] + rest);
    BeforeErrorOfItems(paths, [IOError] + rest);
    assert fs.ls(dir)[|paths|] == IOError;
  }

  /** A listing that succeeds: all of its paths are matched and no warning
      is logged. */
  lemma ListingSuccessMatchesAll(fs: Filesystem, matcher: Path -> Option<Record>, dir: Path, paths: seq<Path>)
    requires fs.ls(dir) == Items(paths)
    ensures DirTrace(fs, matcher, dir) == Trace(MatchPaths(paths, matcher), [], [dir], false)
  {
    BeforeErrorOfItems(paths, []);
    assert Items(paths) + [] == Items(paths);
  }

  /** Every path listed, in listing order, directory by directory. */
  function ListedPaths(fs: Filesystem, dirs: seq<Path>): seq<Path>
  {
    if dirs == [] then []
    else ListedPaths(fs, dirs[..|dirs| - 1]) + BeforeError(fs.ls(dirs[|dirs| - 1]))
  }

  /** The records of a group are the matches of its listed paths, in order. */
  lemma {:induction false} GroupRecordsInListingOrder(fs: Filesystem, matcher: Path -> Option<Record>, dirs: seq<Path>)
    ensures GroupTrace(DirTraces(fs, matcher), dirs).records == MatchPaths(ListedPaths(fs, dirs), matcher)
    decreases |dirs|
  {
    if dirs != [] {
      var n := |dirs| - 1;
      GroupRecordsInListingOrder(fs, matcher, dirs[..n]);
      assert DirTraces(fs, matcher)(dirs[n]) == DirTrace(fs, matcher, dirs[n]);
      MatchPathsAppend(ListedPaths(fs, dirs[..n]), BeforeError(fs.ls(dirs[n])), matcher);
    }
  }

  lemma {:induction false} ListedPathsAppend(fs: Filesystem, d1: seq<Path>, d2: seq<Path>)
    ensures ListedPaths(fs, d1 + d2) == ListedPaths(fs, d1) + ListedPaths(fs, d2)
    decreases |d2|
  {
    if d2 == [] {
      assert d1 + d2 == d1;
    } else {
      var n := |d2| - 1;
      assert (d1 + d2)[..|d1 + d2| - 1] == d1 + d2[..n];
      assert (d1 + d2)[|d1 + d2| - 1] == d2[n];
      ListedPathsAppend(fs, d1, d2[..n]);
    }
  }

  /** The records yielded are the matches of every path listed, in order:
      group order, then directory order, then listing order. */
  lemma {:induction false} RecordsInListingOrder(fs: Filesystem, groups: seq<Group>, matcher: Path -> Option<Record>)
    ensures var t := LsLogsSpec(DirTraces(fs, matcher), groups);
      t.records == MatchPaths(ListedPaths(fs, t.listed), matcher)
    decreases |groups|
  {
    if groups != [] {
      var dt := DirTraces(fs, matcher);
      var n := |groups| - 1;
      var before := LsLogsSpec(dt, groups[..n]);
      RecordsInListingOrder(fs, groups[..n], matcher);
      if !Stopped(before) && groups[n].Dirs? {
        var dirs := groups[n].dirs;
        var g := GroupTrace(dt, dirs);
        assert LsLogsSpec(dt, groups) == Then(before, g);
        GroupRecordsInListingOrder(fs, matcher, dirs);
        DirTracesListThemselves(fs, matcher);
        GroupListsEveryDir(dt, dirs);
        ListedPathsAppend(fs, before.listed, dirs);
        MatchPathsAppend(ListedPaths(fs, before.listed), ListedPaths(fs, dirs), matcher);
      }
    }
  }

  /** Groups `[[a, b], [c]]`: `c` is listed exactly when neither `a` nor `b`
      yields a match. */
  lemma TwoGroupsExample(dt: Path -> Trace, a: Path, b: Path, c: Path)
    requires ListsItself(dt)
    ensures var t := LsLogsSpec(dt, [Dirs([a, b]), Dirs([c])]);
      t.listed == if GroupTrace(dt, [a, b]).records != [] then [a, b] else [a, b, c]
  {
    var first: seq<Group> := [];
    assert !Stopped(LsLogsSpec(dt, first));
    GroupListsEveryDir(dt, [a, b]);
    GroupListsEveryDir(dt, [c]);
    GroupNeverRaises(dt, [a, b]);
    LsLogsOneMore(dt, first, Dirs([a, b]));
    assert first + [Dirs([a, b])] == [Dirs([a, b])];
    var t1 := LsLogsSpec(dt, [Dirs([a, b])]);
    assert t1 == Then(Empty, GroupTrace(dt, [a, b]));
    if GroupTrace(dt, [a, b]).records == [] {
      LsLogsOneMore(dt, [Dirs([a, b])], Dirs([c]));
      assert [Dirs([a, b])] + [Dirs([c])] == [Dirs([a, b]), Dirs([c])];
    } else {
      LsLogsStopsAtPrefix(dt, [Dirs([a, b]), Dirs([c])], 1);
      assert [Dirs([a, b]), Dirs([c])][..1] == [Dirs([a, b])];
    }
  }
}
