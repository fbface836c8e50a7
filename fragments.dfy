/** read_input_log: split the file text on "},{", repair every piece into
    something that looks like one JSON object, and parse it; a piece that
    does not parse becomes None at its own position. */
module Fragments {
  import opened LogTypes

  /** The separator between two concatenated log objects. */
  const Sep: string := "},{"

  /** `s` has an occurrence of Sep starting at index i. */
  predicate SepAt(s: string, i: int) {
    0 <= i && i + |Sep| <= |s| && s[i..i + |Sep|] == Sep
  }

  predicate ContainsSep(s: string) {
    exists i | 0 <= i <= |s| :: SepAt(s, i)
  }

  /** str.split(Sep) scanning left to right: `cur` is the piece collected so far. */
  function SplitFrom(s: string, cur: string): (pieces: seq<string>)
    ensures |pieces| >= 1
    decreases |s|
  {
    if |s| < |Sep| then [cur + s]
    else if s[..|Sep|] == Sep then [cur] + SplitFrom(s[|Sep|..], "")
    else SplitFrom(s[1..], cur + [s[0]])
  }

  /** file_data.split('},{') */
  function Split(s: string): seq<string> {
    SplitFrom(s, "")
  }

  /** '},{'.join(pieces) */
  function Join(pieces: seq<string>): string
    requires |pieces| >= 1
  {
    if |pieces| == 1 then pieces[0] else pieces[0] + Sep + Join(pieces[1..])
  }

  lemma {:induction false} SplitFromJoin(s: string, cur: string)
    ensures Join(SplitFrom(s, cur)) == cur + s
    decreases |s|
  {
    if |s| < |Sep| {
    } else if s[..|Sep|] == Sep {
      SplitFromJoin(s[|Sep|..], "");
      assert s == Sep + s[|Sep|..];
    } else {
      SplitFromJoin(s[1..], cur + [s[0]]);
      assert cur + [s[0]] + s[1..] == cur + s;
    }
  }

  /** Joining the fragments with the separator gives back the file text. */
  lemma SplitJoin(s: string)
    ensures Join(Split(s)) == s
  {
    SplitFromJoin(s, "");
  }

  lemma {:induction false} SplitFromPieces(s: string, cur: string)
    requires forall i :: 0 <= i < |cur| ==> !SepAt(cur + s, i)
    ensures forall k :: 0 <= k < |SplitFrom(s, cur)| ==> !ContainsSep(SplitFrom(s, cur)[k])
    decreases |s|
  {
    var pieces := SplitFrom(s, cur);
    if |s| < |Sep| {
      forall i ensures !SepAt(cur + s, i) {
        if 0 <= i < |cur| {
        }
      }
    } else if s[..|Sep|] == Sep {
      SplitFromPieces(s[|Sep|..], "");
      forall i ensures !SepAt(cur, i) {
        if SepAt(cur, i) {
          assert (cur + s)[i..i + |Sep|] == cur[i..i + |Sep|];
          assert SepAt(cur + s, i);
        }
      }
      assert pieces == [cur] + SplitFrom(s[|Sep|..], "");
    } else {
      var cur' := cur + [s[0]];
      assert cur' + s[1..] == cur + s;
      forall i | 0 <= i < |cur'| ensures !SepAt(cur' + s[1..], i) {
        if i == |cur| {
          assert (cur + s)[i..i + |Sep|] == s[..|Sep|];
        }
      }
      SplitFromPieces(s[1..], cur');
    }
  }

  /** No fragment contains the separator: the split cuts at every occurrence. */
  lemma SplitPiecesHaveNoSep(s: string)
    ensures forall k :: 0 <= k < |Split(s)| ==> !ContainsSep(Split(s)[k])
  {
    SplitFromPieces(s, "");
  }

  lemma {:induction false} SplitFromWhole(s: string, cur: string)
    requires !ContainsSep(cur + s)
    ensures SplitFrom(s, cur) == [cur + s]
    decreases |s|
  {
    if |s| < |Sep| {
    } else if s[..|Sep|] == Sep {
      assert (cur + s)[|cur|..|cur| + |Sep|] == Sep;
      assert SepAt(cur + s, |cur|);
    } else {
      assert cur + [s[0]] + s[1..] == cur + s;
      SplitFromWhole(s[1..], cur + [s[0]]);
    }
  }

  /** Text without the separator splits into exactly one fragment, itself. */
  lemma SplitWithoutSep(s: string)
    requires !ContainsSep(s)
    ensures Split(s) == [s]
  {
    assert "" + s == s;
    SplitFromWhole(s, "");
  }

  /** raw_line.startswith('{') */
  predicate StartsWithBrace(s: string) {
    |s| > 0 && s[0] == '{'
  }

  /** Line 38: prepend '{' unless already there; the result is never empty. */
  function Prefixed(raw: string): (p: string)
    ensures StartsWithBrace(p)
  {
    if StartsWithBrace(raw) then raw else "{" + raw
  }

  /** The repair of the fragment at one position (lines 37-44): after the '{'
      prefix, the last fragment loses its final character, any other fragment
      gains a '}' unless it already ends with one. */
  function Repair(raw: string, isLast: bool): string {
    var p := Prefixed(raw);
    if isLast then p[..|p| - 1]
    else if p[|p| - 1] != '}' then p + "}"
    else p
  }

  /** What the repair does to a fragment other than the last one. */
  lemma RepairInner(raw: string)
    // it is braced on both sides ...
    ensures var r := Repair(raw, false);
      |r| >= 2 && r[0] == '{' && r[|r| - 1] == '}'
    // ... by adding at most one character at each end, nothing in between
    ensures var r := Repair(raw, false);
      r == raw || r == "{" + raw || r == raw + "}" || r == "{" + raw + "}"
    // ... and a fragment that is already braced is left alone
    ensures StartsWithBrace(raw) && raw[|raw| - 1] == '}' ==> Repair(raw, false) == raw
  {
  }

  /** What the repair does to the last fragment: it loses exactly one trailing
      character, whatever that is, and never gains a '}'. */
  lemma RepairLast(raw: string)
    ensures var r := Repair(raw, true);
      |r| + 1 == |Prefixed(raw)| && r == Prefixed(raw)[..|r|]
    ensures |Repair(raw, true)| <= |raw|
    ensures StartsWithBrace(raw) ==> Repair(raw, true) == raw[..|raw| - 1]
    ensures !StartsWithBrace(raw) ==> Repair(raw, true) == ("{" + raw)[..|raw|]
  {
  }

  /** Repairing twice does nothing more for a fragment other than the last. */
  lemma RepairInnerIdempotent(raw: string)
    ensures Repair(Repair(raw, false), false) == Repair(raw, false)
  {
    RepairInner(raw);
    RepairInner(Repair(raw, false));
  }

  /** A lone complete object "{...}" loses its closing brace to the last-fragment rule. */
  lemma RepairLastStripsClosingBrace(body: string)
    ensures Repair("{" + body + "}", true) == "{" + body
  {
    var raw := "{" + body + "}";
    assert StartsWithBrace(raw);
    assert raw[..|raw| - 1] == "{" + body;
  }

  /** An empty last fragment becomes "{" and then the empty string, not "{}". */
  lemma RepairEmptyLast()
    ensures Repair("", true) == ""
  {
  }

  /** The repaired text of the fragment at index i: only the last one is
      treated as last (`total_lines == count`). */
  function RepairedAt(fragments: seq<string>, i: nat): string
    requires i < |fragments|
  {
    Repair(fragments[i], i == |fragments| - 1)
  }

  /** The entries read_input_log has appended after its first n iterations. */
  function ParsePrefix(fragments: seq<string>, n: nat, parse: string -> Option<Obj>): (log: seq<Option<Obj>>)
    requires n <= |fragments|
    ensures |log| == n
  {
    if n == 0 then [] else ParsePrefix(fragments, n - 1, parse) + [parse(RepairedAt(fragments, n - 1))]
  }

  /** Entry i of the list is the parse of the repaired fragment i, whatever
      the number of iterations after it. */
  lemma {:induction false} ParsePrefixAt(fragments: seq<string>, n: nat, parse: string -> Option<Obj>, i: nat)
    requires i < n <= |fragments|
    ensures ParsePrefix(fragments, n, parse)[i] == parse(RepairedAt(fragments, i))
  {
    if i < n - 1 {
      ParsePrefixAt(fragments, n - 1, parse, i);
    }
  }

  /** The list read_input_log returns, one entry per fragment, as a function. */
  function ParseFragments(fragments: seq<string>, parse: string -> Option<Obj>): seq<Option<Obj>> {
    ParsePrefix(fragments, |fragments|, parse)
  }

  function ReadLog(fileData: string, parse: string -> Option<Obj>): seq<Option<Obj>> {
    ParseFragments(Split(fileData), parse)
  }

  /** One entry per fragment, in fragment order: entry i is the parse of the
      repaired fragment i, None where that parse failed. */
  lemma ReadLogEntries(fileData: string, parse: string -> Option<Obj>)
    ensures |ReadLog(fileData, parse)| == |Split(fileData)|
    ensures forall i :: 0 <= i < |Split(fileData)| ==>
      ReadLog(fileData, parse)[i] == parse(RepairedAt(Split(fileData), i))
  {
    var fragments := Split(fileData);
    forall i | 0 <= i < |fragments|
      ensures ReadLog(fileData, parse)[i] == parse(RepairedAt(fragments, i))
    {
      ParsePrefixAt(fragments, |fragments|, parse, i);
    }
  }

  /** Number of None entries (error_line). */
  function CountNone(log: seq<Option<Obj>>): nat {
    if log == [] then 0
    else CountNone(log[..|log| - 1]) + (if log[|log| - 1].None? then 1 else 0)
  }

  /** Lines 37-44 of the loop body: the repair of one fragment in place,
      `isLast` being the test `total_lines == count`. */
  method RepairLine(raw: string, isLast: bool) returns (rawLine: string)
    ensures rawLine == Repair(raw, isLast)
  {
    rawLine := raw;
    if !StartsWithBrace(rawLine) {
      rawLine := "{" + rawLine;
    }
    if isLast {
      // the last fragment loses its final character, whatever it is
      rawLine := rawLine[..|rawLine| - 1];
    } else if rawLine[|rawLine| - 1] != '}' {
      rawLine := rawLine + "}";
    }
  }

  /** The loop of read_input_log (lines 31-57) over the fragments of one
      file. error_line, a local of the source, is returned as well so that
      its meaning can be stated. */
  method ParseLines(rawData: seq<string>, parse: string -> Option<Obj>)
    returns (logData: seq<Option<Obj>>, errorLine: nat)
    ensures logData == ParseFragments(rawData, parse)
    ensures errorLine == CountNone(logData)
  {
    var totalLines := |rawData|;
    var count := 1;
    errorLine := 0;
    logData := [];
    for k := 0 to |rawData|
      invariant count == k + 1
      invariant logData == ParsePrefix(rawData, k, parse)
      invariant errorLine == CountNone(logData)
    {
      var rawLine := RepairLine(rawData[k], totalLines == count);
      count := count + 1;
      var entry := parse(rawLine);
      assert (logData + [entry])[..k] == logData;
      logData := logData + [entry];
      if entry.None? {
        errorLine := errorLine + 1;
      }
    }
  }

  /** read_input_log on the file's text (lines 30-57; reading the file is
      left out). */
  method ReadInputLog(fileData: string, parse: string -> Option<Obj>)
    returns (logData: seq<Option<Obj>>, errorLine: nat)
    ensures logData == ReadLog(fileData, parse)
    ensures errorLine == CountNone(logData)
  {
    var rawData := Split(fileData);
    logData, errorLine := ParseLines(rawData, parse);
  }

  /** error_line counts exactly the fragments that failed to parse. */
  lemma {:induction false} CountNoneCounts(log: seq<Option<Obj>>)
    ensures CountNone(log) == |set i | 0 <= i < |log| && log[i].None?|
  {
    if log != [] {
      var n := |log| - 1;
      CountNoneCounts(log[..n]);
      var before := set i | 0 <= i < n && log[..n][i].None?;
      var after := set i | 0 <= i < |log| && log[i].None?;
      assert before == set i | 0 <= i < n && log[i].None?;
      if log[n].None? {
        assert after == before + {n};
      } else {
        assert after == before;
      }
    }
  }

  /** error_line is zero iff every fragment parsed. */
  lemma {:induction false} CountNoneZero(log: seq<Option<Obj>>)
    ensures CountNone(log) <= |log|
    ensures CountNone(log) == 0 <==> forall i :: 0 <= i < |log| ==> log[i].Some?
  {
    if log != [] {
      var n := |log| - 1;
      CountNoneZero(log[..n]);
      assert forall i :: 0 <= i < n ==> log[..n][i] == log[i];
    }
  }

  /** A file without the separator (one lone object, for instance) yields one
      entry: the parse of the whole text with '{' ensured and its last
      character removed. */
  lemma ReadLogSingleFragment(fileData: string, parse: string -> Option<Obj>)
    requires !ContainsSep(fileData)
    ensures ReadLog(fileData, parse) == [parse(Prefixed(fileData)[..|Prefixed(fileData)| - 1])]
  {
    SplitWithoutSep(fileData);
  }

  /** A lone complete object "{...}" is parsed as "{..." without its brace. */
  lemma ReadLogSingleObject(body: string, parse: string -> Option<Obj>)
    requires !ContainsSep("{" + body + "}")
    ensures ReadLog("{" + body + "}", parse) == [parse("{" + body)]
  {
    SplitWithoutSep("{" + body + "}");
    RepairLastStripsClosingBrace(body);
  }

  /** An empty file yields the single entry parse(""): the '{' added by the
      prefix rule is removed again by the last-fragment rule. */
  lemma ReadLogEmptyFile(parse: string -> Option<Obj>)
    ensures ReadLog("", parse) == [parse("")]
  {
    assert !ContainsSep("");
    SplitWithoutSep("");
  }
}
