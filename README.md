# Cozmo DAS log cleaner, modelled in Dafny

`RawLogClean.py` turns the raw DAS logs of a Cozmo robot into one record per
log line: TimeStamp, Key, Value, Data. A log file holds JSON objects run
together as `{...},{...},...`. The program works in three stages:

* **Fragment repair and parsing** (`read_input_log`). The file text is split
  on the literal `},{`. Each fragment is patched back into an object: a `{`
  is put in front where missing. Every fragment except the last gets a `}`
  appended where missing. The last fragment loses its final character,
  whatever that is. Then each fragment is parsed. A fragment that does not
  parse becomes `None` at its own position, and `error_line` counts those.
* **Record extraction** (`clean_log_data`). Every entry starts as an
  all-`''` record. Then each name/value pair of the entry is routed by its
  name:
  * `$ts` becomes the formatted TimeStamp;
  * a name without a leading `$` becomes Key and Value;
  * `$data` becomes Data;
  * every other `$` name is ignored.
* **Aggregation** (`sort_logs_by_time`, `get_usage_details`). The directory
  entries are sorted by the tuple (mtime, path). Entries that are not
  regular files are skipped. The records of each file are concatenated in
  that order. The first file that raises is reported by path, and the
  error is raised again.

The modules are:
* `LogTypes`: JSON values, records and faults.
* `Fragments`: splitting, repair, and the `ReadInputLog` method.
* `Extract`: classification, the per-line fold, and the `CleanLogData` method.
* `Ordering`: Python's string and tuple order, and the sort.
* `Usage`: the loop over the files, and the `GetUsageDetails` method.

The loops of the three imperative functions (four `for` loops, the inner
loop of `clean_log_data` included) are methods with loop invariants. Each
method is proved equal to a function, and the functions carry the lemmas:
* `Fragments.ReadInputLog` (through `ParseLines` and `RepairLine`) is proved
  equal to `Fragments.ReadLog`;
* `Extract.CleanLogData` is proved equal to `Extract.CleanAll`;
* `Usage.GetUsageDetails` is proved equal to `Usage.UsageDetails`.

Some code outside the model is passed in as parameters:
* `json.loads` becomes `parse: string -> Option<Obj>` (None where it raises).
* The timestamp conversion of lines 79-82 becomes
  `formatTs: Json -> Option<string>` (None where `float()` or the date
  conversion raises).
* A parsed object is its name/value pairs in insertion order. `dict.items()`
  visits them in that order.
* Files are `FileEntry(mtime, path, isFile, content)` values. Each one stands
  for what `os.listdir`, `os.stat`, `os.path.isfile` and `read()` return.

Behaviours of the code worth noting:
* **An empty file.** The empty fragment gets `{`, and the last-fragment rule
  then removes that `{`. So the text parsed is `""`
  (`Fragments.ReadLogEmptyFile`). That does not parse, and the `None` entry
  makes the file raise (`Usage.EmptyFileAborts`).
* **A fragment that does not parse.** `None` has no `.items()`, so
  `clean_log_data` raises on it. `get_usage_details` then aborts with that
  file's path (`Extract.UnparsedEntryAborts`, `Usage.UnparsedFragmentAborts`,
  `Usage.FailingFileAborts`).
* **Several names without `$` in one line.** Key and Value end up holding
  the last such pair (`Extract.CustomLastWins`).
* **Equal mtimes.** Ties are broken by path, because the sort compares
  (mtime, path) tuples (`Ordering.SortLogsByTime`,
  `Ordering.SortLogsByTimeUnique`).

## Model

| member | source | states |
|---|---|---|
| Fragments.SplitJoin | RawLogClean.py:30 | joining the fragments of `split('},{')` with `},{` gives back the file text |
| Fragments.SplitPiecesHaveNoSep | RawLogClean.py:30 | no fragment contains `},{`: the split cuts at every occurrence |
| Fragments.SplitWithoutSep | RawLogClean.py:30 | text without `},{` splits into one fragment, the text itself |
| Fragments.Prefixed | RawLogClean.py:37-38 | after line 38 the fragment starts with `{`, so it is never empty and `raw_line[-1]` is defined |
| Fragments.RepairInner | RawLogClean.py:37-44 | a fragment other than the last ends up starting with `{` and ending with `}`; it is the raw fragment with at most one `{` prepended and one `}` appended; an already braced fragment is unchanged |
| Fragments.RepairLast | RawLogClean.py:37-42 | the last fragment, after the `{` prefix, loses exactly one trailing character, whatever it is, and never gains a `}` |
| Fragments.RepairInnerIdempotent | RawLogClean.py:37-44 | repairing a non-last fragment a second time changes nothing |
| Fragments.RepairLastStripsClosingBrace | RawLogClean.py:37-42 | a last fragment `{...}` becomes `{...` without its closing brace |
| Fragments.RepairEmptyLast | RawLogClean.py:37-42 | an empty last fragment becomes `{` and then the empty string |
| Fragments.RepairLine | RawLogClean.py:37-44 | the in-place repair of one fragment equals `Repair`, with `total_lines == count` as the last-fragment test |
| Fragments.ParseLines | RawLogClean.py:31-57 | the loop appends exactly one entry per fragment, in fragment order (the parse of the repaired fragment, None where it fails), and `error_line` counts the None entries |
| Fragments.ReadInputLog | RawLogClean.py:30-57 | read_input_log on the file text returns `ReadLog` of it, and `error_line` is the number of None entries |
| Fragments.ReadLogEntries | RawLogClean.py:30-55 | the list has one entry per fragment; entry i is the parse of repaired fragment i, None in place where the parse fails |
| Fragments.CountNoneCounts | RawLogClean.py:51-55 | `error_line` equals the number of positions holding None |
| Fragments.CountNoneZero | RawLogClean.py:51-55 | `error_line` is at most the number of fragments, and is zero iff every fragment parsed |
| Fragments.ReadLogSingleFragment | RawLogClean.py:30-42 | text without `},{` yields one entry: the parse of the text with `{` ensured and its last character removed |
| Fragments.ReadLogSingleObject | RawLogClean.py:30-42 | a file holding one complete object `{...}` is parsed as `{...` without its closing brace |
| Fragments.ReadLogEmptyFile | RawLogClean.py:30-48 | an empty file yields the single entry `parse("")`: the `{` added at line 38 is removed again at line 42 |
| Extract.Classify | RawLogClean.py:78-87 | the if/elif chain: `$ts` goes to TimeStamp; a name without a leading `$` goes to Key/Value; `$data` goes to Data; any other `$` name is ignored. Each is an iff, so `$ts` is never taken as the Key |
| Extract.FieldsSucceed | RawLogClean.py:77-87 | the inner loop runs to the end iff every `$ts` value of the line converts |
| Extract.TimeStampLastWins | RawLogClean.py:78-82 | on success TimeStamp is the conversion of the last `$ts` value, or stays as it started (`''`) when there is none |
| Extract.CustomLastWins | RawLogClean.py:83-85 | on success Key and Value are the last pair whose name has no leading `$`, or stay `''` when there is none |
| Extract.DataLastWins | RawLogClean.py:86-87 | on success Data is the last `$data` value, or stays `''` when there is none |
| Extract.FieldsFault | RawLogClean.py:78-81 | when the inner loop raises, it is on the first `$ts` value that does not convert, and that value is reported |
| Extract.CleanAllEntries | RawLogClean.py:71-91 | clean_log_data succeeds iff every entry yields a record. It then returns one record per entry, in order, each built from an all-`''` record. Otherwise it raises the fault of the first failing entry |
| Extract.UnparsedEntryAborts | RawLogClean.py:77 | a None entry makes clean_log_data raise, since `None` has no `.items()` |
| Extract.CleanLogData | RawLogClean.py:59-91 | the nested loops return `CleanAll`: all the records, or the first fault (None entry or bad `$ts`) |
| Ordering.StrLeTotal | RawLogClean.py:104 | Python's string order compares any two paths |
| Ordering.StrLeAntisymmetric | RawLogClean.py:104 | two paths each `<=` the other are equal |
| Ordering.StrLeTransitive | RawLogClean.py:104 | the string order is transitive |
| Ordering.KeyLeTotal | RawLogClean.py:102-104 | the (mtime, path) tuple order compares any two entries |
| Ordering.KeyLeTransitive | RawLogClean.py:102-104 | the tuple order is transitive |
| Ordering.KeyLeAntisymmetric | RawLogClean.py:102-104 | entries each `<=` the other share mtime and path |
| Ordering.SortedMtimeOrder | RawLogClean.py:102-104 | in a list sorted by (mtime, path), an entry with a smaller mtime has a smaller index |
| Ordering.Insert | RawLogClean.py:104 | inserting adds exactly the one entry |
| Ordering.InsertBounded | RawLogClean.py:104 | a lower bound of the inserted entry and of every entry of the list bounds every entry after insertion |
| Ordering.InsertSorted | RawLogClean.py:104 | inserting into a sorted list keeps it sorted |
| Ordering.SortLogsByTime | RawLogClean.py:99-105 | the result is ascending by (mtime, path) and is a permutation of the listing |
| Ordering.InsertDistinct | RawLogClean.py:104 | inserting an entry with a new path keeps the paths distinct |
| Ordering.SortDistinct | RawLogClean.py:104 | sorting a listing with distinct paths keeps the paths distinct |
| Ordering.SortedSameHead | RawLogClean.py:104 | two sorted arrangements of the same distinct-path entries start with the same entry |
| Ordering.SortedUnique | RawLogClean.py:104 | two sorted arrangements of the same distinct-path entries are equal |
| Ordering.SortLogsByTimeUnique | RawLogClean.py:99-105 | with distinct paths, the sorted listing is the unique arrangement ascending by (mtime, path) |
| Usage.ProcessFileShape | RawLogClean.py:128-132 | a file yields records iff every fragment parses and its `$ts` values convert. It then yields one record per fragment, in order, each the extraction of its own fragment |
| Usage.UnparsedFragmentAborts | RawLogClean.py:47-55 | a fragment that does not parse makes its whole file raise |
| Usage.EmptyFileAborts | RawLogClean.py:30-48 | an empty file raises `NoItems` on its None entry (when `""` does not parse) |
| Usage.CollectAppend | RawLogClean.py:120-136 | visiting `a` then `b` is visiting `a`, then, if nothing raised, `b`, with the records concatenated |
| Usage.NonFileIgnored | RawLogClean.py:121-123 | removing an entry that is not a regular file changes nothing |
| Usage.CollectSucceeds | RawLogClean.py:120-136 | the loop finishes iff every regular file yields its records |
| Usage.CollectFault | RawLogClean.py:126-135 | when the loop raises, it reports the path and the fault of the first regular file that raised; every regular file before it succeeded |
| Usage.CollectRecordCount | RawLogClean.py:120-136 | on success the output holds one record per fragment of every regular file |
| Usage.FailingFileAborts | RawLogClean.py:118-135 | any regular file that raises makes get_usage_details raise, wherever it sorts |
| Usage.UsageDetailsInOrder | RawLogClean.py:118-132 | with distinct paths, the result is that of visiting the files in the arrangement ascending by (mtime, path) |
| Usage.CollectOne | RawLogClean.py:120-132 | a regular file visited on its own succeeds iff its own processing does, and yields exactly its records |
| Usage.CollectSplit | RawLogClean.py:120-132 | on success the output is that of the first k entries followed by that of the rest, and both parts succeed |
| Usage.CollectHasBlock | RawLogClean.py:120-132 | on success every regular file's records appear as one block, between the output of the entries before it and the output of those after it |
| Usage.CollectBlocksInOrder | RawLogClean.py:120-132 | on success the block of a regular file precedes the block of every regular file visited after it |
| Usage.OlderFileFirst | RawLogClean.py:104-132 | in any listing, when get_usage_details succeeds, an older regular file's records come as a block before a newer regular file's block |
| Usage.GetUsageDetails | RawLogClean.py:107-136 | the loop returns `UsageDetails`: the records of the sorted regular files concatenated, or the first fault with its path |

## Left out

- Reading files (`open`, `read`, `close`, lines 27-29): the text of each file is given as `FileEntry.content`.
- Listing the directory (`os.listdir`, `os.path.join`, `os.stat`, `os.path.isfile`, lines 99-103 and 121): the listing is given as a sequence of `FileEntry` values. An I/O error raised while reading a file is not modelled.
- `json.loads` (line 48) is the parameter `parse`. The JSON grammar is not modelled, and neither is the order of keys in a dictionary with a duplicated name.
- The timestamp conversion (`float(value) / 1000.0`, `datetime.fromtimestamp(...).strftime`, the millisecond suffix, lines 79-82) is the parameter `formatTs`. It depends on floating point and the local time zone.
- `Json` has no value for the `NaN`, `Infinity` and `-Infinity` that `json.loads` accepts by default. Such values are only carried into Value or Data, and nothing in the model inspects them.
- `mtime` is an integer. The source's float is compared with the same ordering, and NaN cannot occur as a modification time.
- The sort returns the whole `FileEntry`, not only the (mtime, path) tuple. `isFile` and `content` are looked up from the path afterwards in the source.
- The message printed on a failing file (line 134) is left out. The model returns the path with the fault instead of printing it and raising again.
- The `__main__` block (lines 139-159) is left out: argument handling, the hard-coded default directory, and the printing of each record as its four fields joined by `|` with no escaping.
- The unused import of `record.DailyData` (line 17) and the unused locals `usage_log` and `session_record` (lines 113, 115) are left out. `record.py` is not part of this model.
- `Fragments.ReadInputLog` returns `error_line` as an output. In the source it is a local that is computed and then dropped.
