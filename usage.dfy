/** get_usage_details: the records of every regular file of the log
    directory, file after file in (mtime, path) order, or the first fault
    raised together with the path of the file that raised it. */
module Usage {
  import opened LogTypes
  import opened Ordering
  import Fragments
  import Extract

  /** clean_log_data(read_input_log(path)) on the text of one file. */
  function ProcessFile(content: string, parse: string -> Option<Obj>, formatTs: Json -> Option<string>)
    : Result<seq<Record>, Fault>
  {
    Extract.CleanAll(Fragments.ReadLog(content, parse), formatTs)
  }

  /** ProcessFile as the per-file step of the loop. */
  function FileRecords(parse: string -> Option<Obj>, formatTs: Json -> Option<string>)
    : string -> Result<seq<Record>, Fault>
  {
    content => ProcessFile(content, parse, formatTs)
  }

  /** clean_log after the loop of get_usage_details has visited `files` in
      order: entries that are not regular files are skipped, the records of
      every regular file are appended, and the first fault stops the loop,
      tagged with its file's path. */
  function Collect(files: seq<FileEntry>, process: string -> Result<seq<Record>, Fault>)
    : Result<seq<Record>, FileFault>
  {
    if files == [] then Ok([])
    else
      match Collect(files[..|files| - 1], process)
      case Err(e) => Err(e)
      case Ok(log) =>
        var f := files[|files| - 1];
        if !f.isFile then Ok(log)
        else
          match process(f.content)
          case Err(e) => Err(FileFault(f.path, e))
          case Ok(records) => Ok(log + records)
  }

  /** What get_usage_details returns for a directory listing. */
  function UsageDetails(listing: seq<FileEntry>, parse: string -> Option<Obj>, formatTs: Json -> Option<string>)
    : Result<seq<Record>, FileFault>
  {
    Collect(SortLogsByTime(listing), FileRecords(parse, formatTs))
  }

  /** The number of fragments, over the regular files of `files`. */
  function FragmentCount(files: seq<FileEntry>): nat {
    if files == [] then 0
    else
      var f := files[|files| - 1];
      FragmentCount(files[..|files| - 1]) + (if f.isFile then |Fragments.Split(f.content)| else 0)
  }

  // ---------------------------------------------------------------------
  // One file

  /** A file's records succeed iff every fragment parses and every parsed
      line's timestamps convert; then there is one record per fragment, in
      fragment order, each built from its own fragment's pairs. */
  lemma ProcessFileShape(content: string, parse: string -> Option<Obj>, formatTs: Json -> Option<string>)
    ensures ProcessFile(content, parse, formatTs).Ok? <==>
      forall i :: 0 <= i < |Fragments.Split(content)| ==>
        var entry := parse(Fragments.RepairedAt(Fragments.Split(content), i));
        entry.Some? && Extract.TimestampsConvert(entry.value, formatTs)
    ensures ProcessFile(content, parse, formatTs).Ok? ==>
      var records := ProcessFile(content, parse, formatTs).value;
      |records| == |Fragments.Split(content)| &&
      forall i :: 0 <= i < |records| ==>
        var entry := parse(Fragments.RepairedAt(Fragments.Split(content), i));
        entry.Some? && Extract.Fields(EmptyRecord, entry.value, formatTs) == Ok(records[i])
  {
    var log := Fragments.ReadLog(content, parse);
    Fragments.ReadLogEntries(content, parse);
    Extract.CleanAllEntries(log, formatTs);
    forall i | 0 <= i < |log| && log[i].Some?
      ensures Extract.ExtractRecord(log[i], formatTs).Ok? <==> Extract.TimestampsConvert(log[i].value, formatTs)
    {
      Extract.FieldsSucceed(EmptyRecord, log[i].value, formatTs);
    }
  }

  /** A fragment that does not parse makes its whole file raise. */
  lemma UnparsedFragmentAborts(content: string, parse: string -> Option<Obj>, formatTs: Json -> Option<string>, i: nat)
    requires i < |Fragments.Split(content)|
    requires parse(Fragments.RepairedAt(Fragments.Split(content), i)).None?
    ensures ProcessFile(content, parse, formatTs).Err?
  {
    ProcessFileShape(content, parse, formatTs);
  }

  /** An empty file is read as the text ""; when that does not parse, the
      file raises on the None entry. */
  lemma EmptyFileAborts(parse: string -> Option<Obj>, formatTs: Json -> Option<string>)
    requires parse("").None?
    ensures ProcessFile("", parse, formatTs) == Err(NoItems)
  {
    var log := Fragments.ReadLog("", parse);
    Fragments.ReadLogEmptyFile(parse);
    assert log == [None];
    assert log[..0] == [];
    assert Extract.CleanAll(log[..0], formatTs) == Ok([]);
  }

  // ---------------------------------------------------------------------
  // The loop over the files

  /** Visiting `a` and then `b` is visiting `a`, then, if nothing raised,
      visiting `b` and appending its records. */
  lemma {:induction false} CollectAppend(a: seq<FileEntry>, b: seq<FileEntry>,
                                         process: string -> Result<seq<Record>, Fault>)
    ensures Collect(a + b, process) ==
      match Collect(a, process)
      case Err(e) => Err(e)
      case Ok(la) =>
        match Collect(b, process)
        case Err(e) => Err(e)
        case Ok(lb) => Ok(la + lb)
  {
    if b == [] {
      assert a + b == a;
      match Collect(a, process)
      case Err(_) =>
      case Ok(la) =>
        assert la + [] == la;
    } else {
      var n := |b| - 1;
      CollectAppend(a, b[..n], process);
      assert (a + b)[..|a + b| - 1] == a + b[..n];
      assert (a + b)[|a + b| - 1] == b[n];
      match Collect(a, process)
      case Err(_) =>
      case Ok(la) =>
        match Collect(b[..n], process)
        case Err(_) =>
        case Ok(lb) =>
          assert la + (lb + []) == la + lb;
          match process(b[n].content)
          case Err(_) =>
          case Ok(records) =>
            assert la + (lb + records) == (la + lb) + records;
    }
  }

  /** Entries that are not regular files (sub-directories) contribute
      nothing: removing one leaves the result unchanged. */
  lemma NonFileIgnored(files: seq<FileEntry>, k: nat, process: string -> Result<seq<Record>, Fault>)
    requires k < |files| && !files[k].isFile
    ensures Collect(files, process) == Collect(files[..k] + files[k + 1..], process)
  {
    var pre, post := files[..k], files[k + 1..];
    assert files == (pre + [files[k]]) + post;
    assert (pre + [files[k]])[..k] == pre;
    assert Collect(pre + [files[k]], process) == Collect(pre, process);
    CollectAppend(pre + [files[k]], post, process);
    CollectAppend(pre, post, process);
  }

  /** The loop finishes iff every regular file yields its records. */
  lemma {:induction false} CollectSucceeds(files: seq<FileEntry>, process: string -> Result<seq<Record>, Fault>)
    ensures Collect(files, process).Ok? <==>
      forall i :: 0 <= i < |files| && files[i].isFile ==> process(files[i].content).Ok?
  {
    if files != [] {
      var n := |files| - 1;
      CollectSucceeds(files[..n], process);
      assert forall i :: 0 <= i < n ==> files[..n][i] == files[i];
    }
  }

  /** When the loop raises, it is the fault of the first regular file that
      raised, reported with that file's path. */
  lemma {:induction false} CollectFault(files: seq<FileEntry>, process: string -> Result<seq<Record>, Fault>)
    requires Collect(files, process).Err?
    ensures var e := Collect(files, process).error;
      exists i :: 0 <= i < |files| && files[i].isFile && files[i].path == e.path &&
        process(files[i].content) == Err(e.fault) &&
        forall j :: 0 <= j < i && files[j].isFile ==> process(files[j].content).Ok?
  {
    var n := |files| - 1;
    var e := Collect(files, process).error;
    if Collect(files[..n], process).Err? {
      CollectFault(files[..n], process);
      var i :| 0 <= i < n && files[..n][i].isFile && files[..n][i].path == e.path &&
        process(files[..n][i].content) == Err(e.fault) &&
        forall j :: 0 <= j < i && files[..n][j].isFile ==> process(files[..n][j].content).Ok?;
      assert files[i] == files[..n][i];
      assert forall j :: 0 <= j < i ==> files[..n][j] == files[j];
    } else {
      CollectSucceeds(files[..n], process);
      assert forall j :: 0 <= j < n ==> files[..n][j] == files[j];
    }
  }

  /** On success there is one record per fragment of every regular file. */
  lemma {:induction false} CollectRecordCount(files: seq<FileEntry>, parse: string -> Option<Obj>, formatTs: Json -> Option<string>)
    requires Collect(files, FileRecords(parse, formatTs)).Ok?
    ensures |Collect(files, FileRecords(parse, formatTs)).value| == FragmentCount(files)
  {
    if files != [] {
      var n := |files| - 1;
      CollectRecordCount(files[..n], parse, formatTs);
      ProcessFileShape(files[n].content, parse, formatTs);
    }
  }

  /** A fault met among the first k entries is the result of the whole loop. */
  lemma {:induction false} CollectFaultPersists(files: seq<FileEntry>, k: nat,
                                                process: string -> Result<seq<Record>, Fault>)
    requires k <= |files|
    requires Collect(files[..k], process).Err?
    ensures Collect(files, process) == Collect(files[..k], process)
    decreases |files| - k
  {
    if k < |files| {
      assert files[..k + 1][..k] == files[..k];
      CollectFaultPersists(files, k + 1, process);
    } else {
      assert files[..k] == files;
    }
  }

  // ---------------------------------------------------------------------
  // The whole directory

  /** Any regular file of the directory that raises makes get_usage_details
      raise, wherever it sorts. */
  lemma FailingFileAborts(listing: seq<FileEntry>, k: nat, parse: string -> Option<Obj>, formatTs: Json -> Option<string>)
    requires k < |listing| && listing[k].isFile
    requires ProcessFile(listing[k].content, parse, formatTs).Err?
    ensures UsageDetails(listing, parse, formatTs).Err?
  {
    var sorted := SortLogsByTime(listing);
    assert listing[k] in multiset(sorted);
    var i :| 0 <= i < |sorted| && sorted[i] == listing[k];
    CollectSucceeds(sorted, FileRecords(parse, formatTs));
  }

  /** With distinct paths, the result is that of visiting the files in the
      one arrangement ascending by (mtime, path). */
  lemma UsageDetailsInOrder(listing: seq<FileEntry>, arranged: seq<FileEntry>,
                            parse: string -> Option<Obj>, formatTs: Json -> Option<string>)
    requires DistinctPaths(listing)
    requires Sorted(arranged) && multiset(arranged) == multiset(listing)
    ensures UsageDetails(listing, parse, formatTs) == Collect(arranged, FileRecords(parse, formatTs))
  {
    SortLogsByTimeUnique(listing, arranged);
  }

  /** A regular file that yields records, visited on its own. */
  lemma CollectOne(f: FileEntry, process: string -> Result<seq<Record>, Fault>)
    requires f.isFile
    ensures Collect([f], process).Ok? <==> process(f.content).Ok?
    ensures process(f.content).Ok? ==> Collect([f], process).value == process(f.content).value
  {
    assert [f][..0] == [];
    if process(f.content).Ok? {
      assert [] + process(f.content).value == process(f.content).value;
    }
  }

  /** On success, the output is the output of the first k entries followed
      by that of the rest. */
  lemma CollectSplit(files: seq<FileEntry>, k: nat, process: string -> Result<seq<Record>, Fault>)
    requires k <= |files| && Collect(files, process).Ok?
    ensures Collect(files[..k], process).Ok? && Collect(files[k..], process).Ok?
    ensures Collect(files, process).value == Collect(files[..k], process).value + Collect(files[k..], process).value
  {
    assert files == files[..k] + files[k..];
    CollectAppend(files[..k], files[k..], process);
  }

  /** On success, the records of every regular file appear in the output as
      one block, between the output of the entries before it and that of the
      entries after it. */
  lemma CollectHasBlock(files: seq<FileEntry>, i: nat, process: string -> Result<seq<Record>, Fault>)
    requires i < |files| && files[i].isFile && Collect(files, process).Ok?
    ensures process(files[i].content).Ok?
    ensures Collect(files[..i], process).Ok? && Collect(files[i + 1..], process).Ok?
    ensures Collect(files, process).value ==
      Collect(files[..i], process).value + process(files[i].content).value + Collect(files[i + 1..], process).value
  {
    CollectSplit(files, i, process);
    var rest := files[i..];
    CollectSplit(rest, 1, process);
    assert rest[..1] == [files[i]] && rest[1..] == files[i + 1..];
    CollectOne(files[i], process);
  }

  /** On success, the block of a regular file comes before the block of every
      regular file visited after it. */
  lemma CollectBlocksInOrder(files: seq<FileEntry>, i: nat, j: nat, process: string -> Result<seq<Record>, Fault>)
    requires i < j < |files| && files[i].isFile && files[j].isFile
    requires Collect(files, process).Ok?
    ensures process(files[i].content).Ok? && process(files[j].content).Ok?
    ensures exists x, y, z :: (Collect(files, process).value ==
      x + process(files[i].content).value + y + process(files[j].content).value + z)
  {
    CollectHasBlock(files, i, process);
    var after := files[i + 1..];
    var k := j - i - 1;
    assert after[k] == files[j];
    CollectHasBlock(after, k, process);
    var ri, rj := process(files[i].content).value, process(files[j].content).value;
    var x, y, z := Collect(files[..i], process).value, Collect(after[..k], process).value, Collect(after[k + 1..], process).value;
    Regroup(x, ri, y, rj, z);
  }

  lemma Regroup(x: seq<Record>, a: seq<Record>, y: seq<Record>, b: seq<Record>, z: seq<Record>)
    ensures x + a + (y + b + z) == x + a + y + b + z
  {
  }

  /** The records of an older regular file come before those of a newer
      one, whatever order the directory lists them in. */
  lemma OlderFileFirst(listing: seq<FileEntry>, i: nat, j: nat, parse: string -> Option<Obj>, formatTs: Json -> Option<string>)
    requires i < |listing| && j < |listing| && listing[i].isFile && listing[j].isFile
    requires listing[i].mtime < listing[j].mtime
    requires UsageDetails(listing, parse, formatTs).Ok?
    ensures ProcessFile(listing[i].content, parse, formatTs).Ok? && ProcessFile(listing[j].content, parse, formatTs).Ok?
    ensures exists x, y, z :: (UsageDetails(listing, parse, formatTs).value ==
      x + ProcessFile(listing[i].content, parse, formatTs).value + y +
      ProcessFile(listing[j].content, parse, formatTs).value + z)
  {
    var sorted := SortLogsByTime(listing);
    var process := FileRecords(parse, formatTs);
    assert listing[i] in multiset(sorted) && listing[j] in multiset(sorted);
    var p :| 0 <= p < |sorted| && sorted[p] == listing[i];
    var q :| 0 <= q < |sorted| && sorted[q] == listing[j];
    SortedMtimeOrder(sorted, p, q);
    CollectBlocksInOrder(sorted, p, q, process);
    var x, y, z :| Collect(sorted, process).value ==
      x + process(sorted[p].content).value + y + process(sorted[q].content).value + z;
    assert process(sorted[p].content) == ProcessFile(listing[i].content, parse, formatTs);
    assert process(sorted[q].content) == ProcessFile(listing[j].content, parse, formatTs);
  }

  /** get_usage_details (lines 107-136) over a listing of the directory. */
  method GetUsageDetails(listing: seq<FileEntry>, parse: string -> Option<Obj>, formatTs: Json -> Option<string>)
    returns (res: Result<seq<Record>, FileFault>)
    ensures res == UsageDetails(listing, parse, formatTs)
  {
    var cleanLog: seq<Record> := [];
    var sortedLogFilePath := SortLogsByTime(listing);
    for k := 0 to |sortedLogFilePath|
      invariant Collect(sortedLogFilePath[..k], FileRecords(parse, formatTs)) == Ok(cleanLog)
    {
      assert sortedLogFilePath[..k + 1][..k] == sortedLogFilePath[..k];
      var f := sortedLogFilePath[k];
      if !f.isFile {
        // don't descend into directories
        continue;
      }
      var logData, errorLine := Fragments.ReadInputLog(f.content, parse);
      var cleaned := Extract.CleanLogData(logData, formatTs);
      if cleaned.Err? {
        // "Issue in <path>", then the fault is raised again
        CollectFaultPersists(sortedLogFilePath, k + 1, FileRecords(parse, formatTs));
        return Err(FileFault(f.path, cleaned.error));
      }
      cleanLog := cleanLog + cleaned.value;
    }
    assert sortedLogFilePath[..|sortedLogFilePath|] == sortedLogFilePath;
    return Ok(cleanLog);
  }
}
