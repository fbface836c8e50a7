/** clean_log_data: one four-field record per parsed log line, each of the
    line's name/value pairs routed to a field by its name. */
module Extract {
  import opened LogTypes

  /** The name of the timestamp field. */
  const TsKey: string := "$ts"

  /** The name of the payload field. */
  const DataKey: string := "$data"

  /** Where one name/value pair of a log line goes. */
  datatype FieldClass = TimeStampField | CustomField | DataField | Ignored

  /** key.startswith('$') */
  predicate IsReserved(name: string) {
    |name| > 0 && name[0] == '$'
  }

  /** The if/elif chain of lines 78-87, in its order. */
  function Classify(name: string): (c: FieldClass)
    ensures c == TimeStampField <==> name == TsKey
    // `$ts` starts with '$', so it is never taken for the custom key
    ensures c == CustomField <==> !IsReserved(name)
    ensures c == DataField <==> name == DataKey
    ensures c == Ignored <==> IsReserved(name) && name != TsKey && name != DataKey
  {
    if name == TsKey then TimeStampField
    else if !IsReserved(name) then CustomField
    else if name == DataKey then DataField
    else Ignored
  }

  /** One iteration of the inner loop: the entry after seeing one pair.
      `formatTs` stands for the timestamp conversion of lines 79-82; it is
      None where that conversion raises. */
  function Apply(rec: Record, name: string, value: Json, formatTs: Json -> Option<string>): Result<Record, Fault> {
    match Classify(name)
    case TimeStampField =>
      (match formatTs(value)
       case None => Err(BadTimestamp(value))
       case Some(t) => Ok(rec.(timeStamp := t)))
    case CustomField => Ok(rec.(key := name, value := value))
    case DataField => Ok(rec.(data := value))
    case Ignored => Ok(rec)
  }

  /** The entry after iterating over `pairs` from `rec`, or the fault of the
      first pair that raised. */
  function Fields(rec: Record, pairs: Obj, formatTs: Json -> Option<string>): Result<Record, Fault> {
    if pairs == [] then Ok(rec)
    else
      match Fields(rec, pairs[..|pairs| - 1], formatTs)
      case Err(e) => Err(e)
      case Ok(r) => Apply(r, pairs[|pairs| - 1].0, pairs[|pairs| - 1].1, formatTs)
  }

  /** The index of the last pair of the given class, if any. */
  function LastOf(pairs: Obj, c: FieldClass): (r: Option<nat>)
    ensures r.Some? ==> r.value < |pairs| && Classify(pairs[r.value].0) == c
    ensures r.Some? ==> forall j :: r.value < j < |pairs| ==> Classify(pairs[j].0) != c
    ensures r.None? ==> forall j :: 0 <= j < |pairs| ==> Classify(pairs[j].0) != c
  {
    if pairs == [] then None
    else if Classify(pairs[|pairs| - 1].0) == c then Some(|pairs| - 1)
    else LastOf(pairs[..|pairs| - 1], c)
  }

  /** Every `$ts` value of `pairs` converts. */
  predicate TimestampsConvert(pairs: Obj, formatTs: Json -> Option<string>) {
    forall i :: 0 <= i < |pairs| && pairs[i].0 == TsKey ==> formatTs(pairs[i].1).Some?
  }

  /** TimeStamp holds the conversion of the last `$ts` value, or what `rec` had. */
  predicate TimeStampFromLast(rec: Record, pairs: Obj, formatTs: Json -> Option<string>, r: Record) {
    match LastOf(pairs, TimeStampField)
    case None => r.timeStamp == rec.timeStamp
    case Some(i) => formatTs(pairs[i].1) == Some(r.timeStamp)
  }

  /** Key and Value hold the last pair whose name has no '$', or what `rec` had. */
  predicate CustomFromLast(rec: Record, pairs: Obj, r: Record) {
    match LastOf(pairs, CustomField)
    case None => r.key == rec.key && r.value == rec.value
    case Some(i) => r.key == pairs[i].0 && r.value == pairs[i].1
  }

  /** Data holds the last `$data` value, or what `rec` had. */
  predicate DataFromLast(rec: Record, pairs: Obj, r: Record) {
    match LastOf(pairs, DataField)
    case None => r.data == rec.data
    case Some(i) => r.data == pairs[i].1
  }

  /** The inner loop runs to the end iff every `$ts` value converts. */
  lemma {:induction false} FieldsSucceed(rec: Record, pairs: Obj, formatTs: Json -> Option<string>)
    ensures Fields(rec, pairs, formatTs).Ok? <==> TimestampsConvert(pairs, formatTs)
  {
    if pairs != [] {
      var n := |pairs| - 1;
      var init := pairs[..n];
      FieldsSucceed(rec, init, formatTs);
      assert forall i :: 0 <= i < n ==> init[i] == pairs[i];
      if !TimestampsConvert(init, formatTs) {
        var i :| 0 <= i < n && init[i].0 == TsKey && formatTs(init[i].1).None?;
        assert pairs[i] == init[i];
      }
    }
  }

  /** When the inner loop runs to the end, TimeStamp comes from the last
      `$ts` pair; no other pair touches it. */
  lemma {:induction false} TimeStampLastWins(rec: Record, pairs: Obj, formatTs: Json -> Option<string>)
    requires Fields(rec, pairs, formatTs).Ok?
    ensures TimeStampFromLast(rec, pairs, formatTs, Fields(rec, pairs, formatTs).value)
  {
    if pairs != [] {
      var n := |pairs| - 1;
      var init := pairs[..n];
      TimeStampLastWins(rec, init, formatTs);
      if Classify(pairs[n].0) != TimeStampField {
        assert LastOf(pairs, TimeStampField) == LastOf(init, TimeStampField);
        if LastOf(init, TimeStampField).Some? {
          assert init[LastOf(init, TimeStampField).value] == pairs[LastOf(init, TimeStampField).value];
        }
      }
    }
  }

  /** When the inner loop runs to the end, Key and Value come from the last
      pair whose name has no '$' (so the last such name wins); no other pair
      touches them. */
  lemma {:induction false} CustomLastWins(rec: Record, pairs: Obj, formatTs: Json -> Option<string>)
    requires Fields(rec, pairs, formatTs).Ok?
    ensures CustomFromLast(rec, pairs, Fields(rec, pairs, formatTs).value)
  {
    if pairs != [] {
      var n := |pairs| - 1;
      var init := pairs[..n];
      CustomLastWins(rec, init, formatTs);
      if Classify(pairs[n].0) != CustomField {
        assert LastOf(pairs, CustomField) == LastOf(init, CustomField);
        if LastOf(init, CustomField).Some? {
          assert init[LastOf(init, CustomField).value] == pairs[LastOf(init, CustomField).value];
        }
      }
    }
  }

  /** When the inner loop runs to the end, Data comes from the last `$data`
      pair; no other pair touches it. */
  lemma {:induction false} DataLastWins(rec: Record, pairs: Obj, formatTs: Json -> Option<string>)
    requires Fields(rec, pairs, formatTs).Ok?
    ensures DataFromLast(rec, pairs, Fields(rec, pairs, formatTs).value)
  {
    if pairs != [] {
      var n := |pairs| - 1;
      var init := pairs[..n];
      DataLastWins(rec, init, formatTs);
      if Classify(pairs[n].0) != DataField {
        assert LastOf(pairs, DataField) == LastOf(init, DataField);
        if LastOf(init, DataField).Some? {
          assert init[LastOf(init, DataField).value] == pairs[LastOf(init, DataField).value];
        }
      }
    }
  }

  /** When the inner loop raises, it is on a `$ts` value that does not
      convert, and every `$ts` before it converted. */
  lemma {:induction false} FieldsFault(rec: Record, pairs: Obj, formatTs: Json -> Option<string>)
    requires Fields(rec, pairs, formatTs).Err?
    ensures exists i :: (0 <= i < |pairs| && pairs[i].0 == TsKey && formatTs(pairs[i].1).None? &&
                         Fields(rec, pairs, formatTs).error == BadTimestamp(pairs[i].1) &&
                         TimestampsConvert(pairs[..i], formatTs))
  {
    var n := |pairs| - 1;
    var init := pairs[..n];
    assert forall i :: 0 <= i < n ==> init[i] == pairs[i];
    if Fields(rec, init, formatTs).Err? {
      FieldsFault(rec, init, formatTs);
      var i :| 0 <= i < n && init[i].0 == TsKey && formatTs(init[i].1).None? &&
        Fields(rec, init, formatTs).error == BadTimestamp(init[i].1) &&
        TimestampsConvert(init[..i], formatTs);
      assert init[..i] == pairs[..i];
    } else {
      FieldsSucceed(rec, init, formatTs);
      assert pairs[..n] == init;
    }
  }

  /** The record of one entry of the list: None has no .items() and raises;
      a parsed object fills a fresh all-'' record. */
  function ExtractRecord(entry: Option<Obj>, formatTs: Json -> Option<string>): Result<Record, Fault> {
    match entry
    case None => Err(NoItems)
    case Some(obj) => Fields(EmptyRecord, obj, formatTs)
  }

  /** The list clean_log_data returns, or the fault of the first entry that
      raised. */
  function CleanAll(log: seq<Option<Obj>>, formatTs: Json -> Option<string>): Result<seq<Record>, Fault> {
    if log == [] then Ok([])
    else
      match CleanAll(log[..|log| - 1], formatTs)
      case Err(e) => Err(e)
      case Ok(records) =>
        match ExtractRecord(log[|log| - 1], formatTs)
        case Err(e) => Err(e)
        case Ok(r) => Ok(records + [r])
  }

  /** clean_log_data succeeds iff every entry yields a record; then it returns
      exactly one record per entry, in entry order. Otherwise it raises the
      fault of the first entry that failed. */
  lemma {:induction false} CleanAllEntries(log: seq<Option<Obj>>, formatTs: Json -> Option<string>)
    ensures CleanAll(log, formatTs).Ok? <==> forall i :: 0 <= i < |log| ==> ExtractRecord(log[i], formatTs).Ok?
    ensures CleanAll(log, formatTs).Ok? ==>
      var records := CleanAll(log, formatTs).value;
      |records| == |log| &&
      forall i :: 0 <= i < |log| ==> ExtractRecord(log[i], formatTs) == Ok(records[i])
    ensures CleanAll(log, formatTs).Err? ==>
      exists i :: 0 <= i < |log| && ExtractRecord(log[i], formatTs) == Err(CleanAll(log, formatTs).error) &&
        forall j :: 0 <= j < i ==> ExtractRecord(log[j], formatTs).Ok?
  {
    if log != [] {
      var n := |log| - 1;
      var init := log[..n];
      CleanAllEntries(init, formatTs);
      assert forall i :: 0 <= i < n ==> init[i] == log[i];
      if CleanAll(init, formatTs).Err? {
        var i :| 0 <= i < n && ExtractRecord(init[i], formatTs) == Err(CleanAll(init, formatTs).error) &&
          forall j :: 0 <= j < i ==> ExtractRecord(init[j], formatTs).Ok?;
        assert ExtractRecord(log[i], formatTs).Err?;
      }
    }
  }

  /** An entry that failed to parse is None, which has no .items(): it makes
      the whole of clean_log_data raise. */
  lemma UnparsedEntryAborts(log: seq<Option<Obj>>, formatTs: Json -> Option<string>, k: nat)
    requires k < |log| && log[k].None?
    ensures CleanAll(log, formatTs).Err?
  {
    CleanAllEntries(log, formatTs);
  }

  /** A fault found in the first k entries is the fault of the whole list. */
  lemma {:induction false} CleanAllFaultPersists(log: seq<Option<Obj>>, formatTs: Json -> Option<string>, k: nat)
    requires k <= |log|
    requires CleanAll(log[..k], formatTs).Err?
    ensures CleanAll(log, formatTs) == CleanAll(log[..k], formatTs)
    decreases |log| - k
  {
    if k < |log| {
      assert log[..k + 1][..k] == log[..k];
      CleanAllFaultPersists(log, formatTs, k + 1);
    } else {
      assert log[..k] == log;
    }
  }

  /** A fault found in the first k pairs is the fault of the whole line. */
  lemma {:induction false} FieldsFaultPersists(rec: Record, pairs: Obj, formatTs: Json -> Option<string>, k: nat)
    requires k <= |pairs|
    requires Fields(rec, pairs[..k], formatTs).Err?
    ensures Fields(rec, pairs, formatTs) == Fields(rec, pairs[..k], formatTs)
    decreases |pairs| - k
  {
    if k < |pairs| {
      assert pairs[..k + 1][..k] == pairs[..k];
      FieldsFaultPersists(rec, pairs, formatTs, k + 1);
    } else {
      assert pairs[..k] == pairs;
    }
  }

  /** clean_log_data (lines 59-91): for every entry, a fresh all-'' record
      filled by iterating over the entry's pairs. */
  method CleanLogData(logData: seq<Option<Obj>>, formatTs: Json -> Option<string>)
    returns (res: Result<seq<Record>, Fault>)
    ensures res == CleanAll(logData, formatTs)
  {
    var entryList: seq<Record> := [];
    for k := 0 to |logData|
      invariant CleanAll(logData[..k], formatTs) == Ok(entryList)
    {
      assert logData[..k + 1][..k] == logData[..k];
      var logLine := logData[k];
      if logLine.None? {
        // log_line.items() raises on None
        CleanAllFaultPersists(logData, formatTs, k + 1);
        return Err(NoItems);
      }
      var pairs := logLine.value;
      var entry := EmptyRecord;
      for j := 0 to |pairs|
        invariant Fields(EmptyRecord, pairs[..j], formatTs) == Ok(entry)
      {
        var key, value := pairs[j].0, pairs[j].1;
        assert pairs[..j + 1][..j] == pairs[..j];
        if key == TsKey {
          var ts := formatTs(value);
          if ts.None? {
            // float(value) or the date conversion raises
            FieldsFaultPersists(EmptyRecord, pairs, formatTs, j + 1);
            assert pairs[..|pairs|] == pairs;
            CleanAllFaultPersists(logData, formatTs, k + 1);
            return Err(BadTimestamp(value));
          }
          entry := entry.(timeStamp := ts.value);
        } else if !IsReserved(key) {
          entry := entry.(key := key, value := value);
        } else if key == DataKey {
          entry := entry.(data := value);
        }
      }
      assert pairs[..|pairs|] == pairs;
      entryList := entryList + [entry];
    }
    assert logData[..|logData|] == logData;
    return Ok(entryList);
  }
}
