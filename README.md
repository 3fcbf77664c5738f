# mrjob log helpers: Hadoop ids and fault-tolerant log listing

This project models two small helpers that mrjob uses when it looks through
Hadoop logs for the cause of a failure, and proves what they promise.

- `mrjob/logs/ids.py` works on the ids found in log records (`attempt_…`,
  `task_…`, `job_…`, plus application and container ids). It has a sort key
  that orders records roughly by time. It has a sort by recency, most recent
  first. It derives the task id from an attempt id and the job id from a task
  id, and fills the derived ids into a record in place.
- `mrjob/logs/wrap.py` reads and lists logs without raising on I/O errors.
  `_cat_log` yields a log's lines until the read fails. `_ls_logs` walks
  groups of redundant log directories. It matches every listed path against
  a caller-supplied matcher and stops after the first group that matched
  anything.

Files and modules:

- `py_str.dfy` (`PyStr`) holds the Python operations the ids code is built
  from: `str.split` on one separator (empty fields kept), `sep.join`, the
  clamping slice `xs[lo:hi]`, and `<` on strings and on tuples of strings.
  Split and join are proved to be inverse. `<` is proved irreflexive,
  transitive and total.
- `py_sorted.dfy` (`PySorted`) holds `sorted(xs, key=…, reverse=True)` as an
  insertion sort. It is proved to return a permutation with keys
  non-increasing and equal keys in input order. It is also proved to be the
  only sequence with those three properties.
- `ids.dfy` (`Ids`) holds the id helpers. A record is a `map<string,string>`.
  `d.get(k)` is truthy when the key is present and not `""`.
  `_add_implied_ids` changes its dictionary in place. It is modelled as the
  method `AddImpliedIds` on a `Dict` object, specified by the function
  `ImpliedIds`, which the lemmas are about.
- `wrap.dfy` (`Wrap`) holds the log helpers.
  - The filesystem is two functions, `ls` and `cat`. Each gives the steps its
    generator produces: items, possibly ended by an `IOError`.
  - A run of `_ls_logs` is observed as a `Trace`. The trace holds the records
    yielded, the warnings logged, the directories listed, and whether the run
    ended by raising `TypeError`.
  - `LsLogs` is the method with the source's nested loops, its `matched` flag
    and its early returns. It is proved equal to `LsLogsSpec`, a fold over
    the groups that stops once a group has yielded a record or a plain
    string has been met.
  - `LsLogsSpec` is written over a function `dirTrace` giving what one
    directory contributes. For the real program this function is
    `DirTraces(fs, matcher)`.
  - The traversal lemmas that need it assume `ListsItself(dirTrace)`: each
    directory's contribution lists that directory and never raises.
    `DirTracesListThemselves` proves this for `DirTraces`.

A derived task id is `'task_' + '_'.join(attempt_id.split('_')[1:5])`
(`mrjob/logs/ids.py:75`). The slice keeps whichever of fields 1 to 4 exist,
so a shorter attempt id gives a shorter task id, and `attempt` alone gives
`task_` (`Ids.AttemptIdToTaskId`, `Ids.ShortAttemptIdGivesShortTaskId`).
A derived job id likewise keeps whichever of fields 1 and 2 of the task id
exist (`mrjob/logs/ids.py:81`).

## Model

| member | source | states |
|---|---|---|
| PyStr.Split | mrjob/logs/ids.py:37-38 | `s.split('_')` gives at least one field, no field contains `_`, and joining the fields with `_` gives `s` back |
| PyStr.Join | mrjob/logs/ids.py:40-43 | `'_'.join(parts)` of one part is that part; with two or more parts it starts with the first part followed by the separator |
| PyStr.SplitJoin | mrjob/logs/ids.py:37-38 | splitting the join of separator-free fields gives the fields back (the other half of the round trip) |
| PyStr.Slice | mrjob/logs/ids.py:40-43 | `xs[lo:hi]` has the clamped length and holds `xs[lo + i]` at position `i`, so missing fields give an empty slice instead of an error |
| PyStr.Less | mrjob/logs/ids.py:48-54 | string `<` (how each key component compares) never holds between equal strings and holds whenever `a` is a proper prefix of `b` |
| PyStr.TupleLess | mrjob/logs/ids.py:48-54 | tuple `<` (how the keys compare) never holds between equal tuples and holds whenever `a` is a proper prefix of `b` |
| PyStr.TupleLessCommonPrefix | mrjob/logs/ids.py:48-54 | tuples that agree on a prefix compare as their remainders do |
| PyStr.TupleLessTotal | mrjob/logs/ids.py:48-54 | two different key tuples are always ordered one way or the other |
| PyStr.TupleLessTransitive | mrjob/logs/ids.py:48-54 | tuple `<` is transitive |
| PySorted.SortDesc | mrjob/logs/ids.py:23 | `sorted(xs, key, reverse=True)` is a permutation of `xs`, keys are non-increasing, and the elements of each key keep their input order |
| PySorted.StableSortDescIsUnique | mrjob/logs/ids.py:23 | any sequence that is a stable descending sort of `xs` equals `SortDesc(xs)`, so the contract determines the result |
| PySorted.LargerKeyFirst | mrjob/logs/ids.py:19-21 | in the sorted output an element with a larger key comes before one with a smaller key |
| Ids.Has | mrjob/logs/ids.py:62-66 | `d.get(k)` is truthy exactly when `d.get(k) or ''` is non-empty |
| Ids.GetOrEmpty | mrjob/logs/ids.py:49-50 | `d.get(k) or ''` is the stored value when the key is present (a stored `""` stays `""`), and otherwise `""` |
| Ids.MostSpecificId | mrjob/logs/ids.py:37-38 | the id used is the attempt id if non-empty, else the task id, else the job id; it is `""` exactly when all three are missing or empty |
| Ids.TimeSortKey | mrjob/logs/ids.py:26-54 | the key is application id or `""`, container id or `""`, fields 1 and 2 of the id joined by `_` (or field 1 alone, or `""`), field 3, field 5, then field 4, each `""` when missing; the last three hold no `_` |
| Ids.TimeSortKeyWithoutIds | mrjob/logs/ids.py:37-43 | a record with no attempt, task or job id gets `""` for every id-derived component |
| Ids.TimeSortKeyOfAttemptId | mrjob/logs/ids.py:34-54 | for `attempt_<ts>_<step>_<type>_<task>_<attempt>` the key is `("", "", "<ts>_<step>", type, attempt, task)`, with the attempt number ahead of the task number |
| Ids.AttemptNumDominatesTaskNum | mrjob/logs/ids.py:30-32 | with the first four components equal, a greater attempt number gives a greater key whatever the task numbers |
| Ids.SortByRecency | mrjob/logs/ids.py:18-23 | the intended sort returns a permutation of the records, most recent key first, equal keys in input order |
| Ids.LaterAttemptFirst | mrjob/logs/ids.py:30-32 | of two sorted records of the same application, container, step and task type, the later attempt comes first |
| Ids.AsWrittenNeverSorts | mrjob/logs/ids.py:23 | the code as written raises TypeError for every input, while the intended sort always returns a sorted permutation |
| Ids.AttemptIdToTaskId | mrjob/logs/ids.py:72-75 | the result starts with `task_` and splits into `task` followed by fields 1 to 4 of the attempt id (one empty field when there are none) |
| Ids.AttemptIdToTaskIdOfFields | mrjob/logs/ids.py:72-75 | `attempt_<ts>_<step>_<type>_<task>_<n>` gives `task_<ts>_<step>_<type>_<task>`, as in the docstring example |
| Ids.ShortAttemptIdGivesShortTaskId | mrjob/logs/ids.py:75 | `attempt` gives `task_` and `attempt_<ts>` gives `task_<ts>`: missing fields are dropped, not filled |
| Ids.TaskIdToJobId | mrjob/logs/ids.py:78-81 | the result starts with `job_` and splits into `job` followed by fields 1 and 2 of the task id |
| Ids.TaskIdToJobIdOfFields | mrjob/logs/ids.py:78-81 | `task_<ts>_<step>_<type>_<task>` gives `job_<ts>_<step>`, as in the docstring example |
| Ids.TaskThenJobId | mrjob/logs/ids.py:72-81 | deriving the task id and then the job id gives `job_` followed by fields 1 and 2 of the attempt id itself |
| Ids.ImpliedIds | mrjob/logs/ids.py:62-67 | the result keeps every key of `d` and adds at most `task_id` and `job_id`; a non-empty id, and every key other than `task_id` and `job_id`, keeps its value |
| Ids.ImpliedIdsFills | mrjob/logs/ids.py:62-67 | a missing or empty task id is derived from a non-empty attempt id; a missing or empty job id is then derived from the (possibly new) task id; non-empty ids are never replaced |
| Ids.ImpliedIdsTouchesOnlyTaskAndJob | mrjob/logs/ids.py:57-69 | only the `task_id` and `job_id` keys may be added or changed; every other key keeps its value |
| Ids.ImpliedIdsIdempotent | mrjob/logs/ids.py:62-67 | filling in implied ids a second time changes nothing |
| Ids.ImpliedIdsOfAttemptId | mrjob/logs/ids.py:57-67 | a record with only `attempt_<ts>_<step>_<type>_<task>_<n>` ends with exactly that attempt id, `task_<ts>_<step>_<type>_<task>` and `job_<ts>_<step>` |
| Ids.AddImpliedIds | mrjob/logs/ids.py:57-67 | the two in-place updates leave the dictionary equal to `ImpliedIds` of its old contents |
| Wrap.BeforeError | mrjob/logs/wrap.py:27-30 | the items a generator yields before an IOError are its leading items, and when they are fewer than the steps the next step is the IOError |
| Wrap.BeforeErrorIsPrefix | mrjob/logs/wrap.py:27-30 | the items read are exactly the steps before the first IOError, and fewer than all steps exactly when an IOError occurs |
| Wrap.ReadUntilError | mrjob/logs/wrap.py:27-30 | the try/for/except loop returns the items before the first IOError and reports failure exactly when there is an IOError |
| Wrap.CatLog | mrjob/logs/wrap.py:24-31 | `_cat_log` yields exactly the lines read before the first IOError, never raises, and logs one warning naming the path exactly when the read failed |
| Wrap.FsLs | mrjob/logs/wrap.py:54-59 | `_fs_ls` yields exactly the paths listed before the first IOError and logs one warning naming the directory exactly when the listing failed |
| Wrap.DirTrace | mrjob/logs/wrap.py:54-59 | one directory is listed and never raises; it yields at most one record per listed step, each with `path` set to a path the matcher recognises; it logs one `CouldNotLs` warning naming the directory exactly when the listing fails, and none otherwise |
| Wrap.GroupTrace | mrjob/logs/wrap.py:67-73 | when each directory lists itself and never raises, a group lists exactly its directories, in order, and never raises |
| Wrap.MatchListing | mrjob/logs/wrap.py:68-73 | the innermost loop yields `MatchPaths` of the listed paths |
| Wrap.MatchedPaths | mrjob/logs/wrap.py:68-70 | no more paths are kept than listed, each kept path is listed and recognised, and every recognised listed path is kept; listing order comes from the definition, a filter over the listed paths |
| Wrap.MatchedPathsCount | mrjob/logs/wrap.py:68-70 | each recognised path is kept as many times as it is listed, and an unrecognised one not at all |
| Wrap.MatchPaths | mrjob/logs/wrap.py:68-73 | one record per recognised path, each with `path` set to a listed path that the matcher recognises |
| Wrap.MatchPathsSpec | mrjob/logs/wrap.py:69-73 | one record per path the matcher accepts, in listing order, each the matcher's dictionary with `path` set to that path (overwriting any `path` it had); rejected paths yield nothing |
| Wrap.LsGroup | mrjob/logs/wrap.py:65-73 | the loop over one group yields the group's records and warnings, lists the group's directories, and sets `matched` exactly when some record was yielded |
| Wrap.Advance | mrjob/logs/wrap.py:61-76 | one iteration of the outer loop: a run that already stopped stays as it is, a running one only grows (records, warnings and listed directories are extended), and a plain string raises TypeError without listing or yielding anything more |
| Wrap.LsLogsSpec | mrjob/logs/wrap.py:61-76 | a run that ends without a match and without TypeError met no plain-string group |
| Wrap.LsLogs | mrjob/logs/wrap.py:34-76 | the nested loops with their early returns produce exactly the trace `LsLogsSpec` defines |
| Wrap.LsLogsAppend | mrjob/logs/wrap.py:61-76 | once the earlier groups stopped the run, later groups change nothing; otherwise the later groups run as they would alone |
| Wrap.LsLogsStopsAtPrefix | mrjob/logs/wrap.py:75-76 | the run over all groups equals the run over the prefix that stopped it |
| Wrap.FirstMatchingGroupIsLast | mrjob/logs/wrap.py:65-76 | the first group that yields a record is processed completely and no later group is listed |
| Wrap.UnmatchedGroupContinues | mrjob/logs/wrap.py:61-76 | a group that yields nothing lets the run go on with the following groups |
| Wrap.StrGroupRaises | mrjob/logs/wrap.py:61-63 | a plain string reached as a group raises TypeError before anything of it is listed, and nothing after it runs |
| Wrap.StrGroupAfterMatchNotReached | mrjob/logs/wrap.py:61-76 | a plain string after a group that yielded a record never raises |
| Wrap.LsLogsRecordsOrTypeError | mrjob/logs/wrap.py:61-76 | a run never both yields records and raises TypeError |
| Wrap.NoMatchListsEverything | mrjob/logs/wrap.py:61-76 | when no group matches and none is a string, every directory is listed and nothing is yielded |
| Wrap.GroupListsEveryDir | mrjob/logs/wrap.py:67-68 | every directory of a group that is reached is listed, in order, whatever fails |
| Wrap.GroupNeverRaises | mrjob/logs/wrap.py:67-73 | listing errors inside a group never raise |
| Wrap.GroupTraceAppend | mrjob/logs/wrap.py:67-73 | the directories of a group are processed independently, one after the other |
| Wrap.BeforeErrorOfItems | mrjob/logs/wrap.py:55-57 | a listing made of `paths` followed by an IOError or by the end is read back as exactly `paths` |
| Wrap.ListingErrorKeepsEarlierPaths | mrjob/logs/wrap.py:54-59 | a listing that fails after `paths` still matches those paths, matches nothing after the error, and logs one warning naming the directory |
| Wrap.ListingSuccessMatchesAll | mrjob/logs/wrap.py:54-59 | a listing without error matches all its paths and logs nothing |
| Wrap.GroupRecordsInListingOrder | mrjob/logs/wrap.py:67-73 | a group's records are the matches of its listed paths, directory by directory, in listing order |
| Wrap.RecordsInListingOrder | mrjob/logs/wrap.py:61-73 | all records yielded are the matches of all paths listed, in group order, then directory order, then listing order |
| Wrap.TwoGroupsExample | mrjob/logs/wrap.py:42-46 | with groups `[[a, b], [c]]`, `c` is listed exactly when neither `a` nor `b` yields a match |

## Findings

| source | as written | input that shows it | evidently intended | confidence | as-written member | corrected member |
|---|---|---|---|---|---|---|
| mrjob/logs/ids.py:23 | `_sort_by_recency` calls itself as `_sort_by_recency(ds, key=_time_sort_key, reverse=True)`, and it accepts no `key` or `reverse` argument, so every call raises TypeError | any list of records, e.g. `[]` | `sorted(ds, key=_time_sort_key, reverse=True)`, as the docstring describes | not executed | Ids.SortByRecencyAsWritten, Ids.AsWrittenNeverSorts | Ids.SortByRecency |

## Left out

- Filesystem backends (local disk, S3, SSH) are not modelled. `fs.ls` and `fs.cat` are parameters that give the steps each generator produces.
- `to_string` (bytes to text decoding) is taken to be the identity, so lines are already strings.
- Warning messages are recorded as which path or directory failed. The `%r` formatting of the exception and the logger itself are not modelled.
- Generator laziness is not modelled. Outputs are finite sequences, so a consumer that stops early is not represented. A `Trace` keeps records and warnings in two separate sequences, so their relative order in time is not captured.
- Exceptions other than IOError raised by `fs.ls` or `fs.cat`, and any exception raised by the matcher (which is called outside every `try`), end the generator in the source. They are not modelled: the filesystem steps can only be items or an IOError, and the matcher is a total function.
- `**kwargs` passed to the matcher are folded into the matcher function.
- `m['path'] = path` mutates the dictionary the matcher returned. The model yields an updated copy, so aliasing with a dictionary the matcher keeps elsewhere is not captured.
- A record value of `None` is not modelled. A key is either absent or maps to a string, and `""` is the falsy string.
- `isinstance(log_dirs, str)` is modelled as the `Str` group case. Other non-list iterables are not modelled.
- `_fs_ls` ignores its parameter and lists the enclosing `log_dir`. It is only called with `log_dir`, so the model lists the directory it is given.
- `_sort_by_recency` is modelled as intended (`Ids.SortByRecency`). The code as written is the Findings row above.
