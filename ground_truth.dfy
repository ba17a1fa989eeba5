/**
 * Reading the expected hit counts: one `name,count` line per video, with a
 * header line whose first field is `file`. Opening the file and cutting it
 * into lines is not modelled: the lines are the input.
 */
module GroundTruth {
  import opened Wrappers
  import opened PyText

  /** Why a line stops the reader: no second field (IndexError) or a second field that is not an integer (ValueError). */
  datatype Reason = MissingCount | NotAnInteger

  /** The first offending line, counted from 0, and why it failed. */
  datatype LineError = LineError(lineNo: nat, reason: Reason)

  /** How the reader treats one line. */
  datatype LineKind = Header | Entry(name: string, count: int) | Malformed(reason: Reason)

  /** The first field that marks a header line. */
  const HeaderField := "file"

  /** Classify a line: strip it, split it at commas, then skip, record or fail. */
  function ClassifyLine(line: string): (kind: LineKind)
    ensures kind.Entry? ==> kind.name != HeaderField
    ensures kind.Header? <==> Split(Strip(line), ',')[0] == HeaderField
  {
    ClassifyFields(Split(Strip(line), ','))
  }

  /** Classify the comma-separated fields of a stripped line. */
  function ClassifyFields(tokens: seq<string>): (kind: LineKind)
    requires |tokens| >= 1
    ensures kind.Entry? ==> kind.name == tokens[0] != HeaderField
    ensures kind.Header? <==> tokens[0] == HeaderField
  {
    if tokens[0] == HeaderField then Header
    else if |tokens| < 2 then Malformed(MissingCount)
    else match ParseInt(tokens[1])
      case None => Malformed(NotAnInteger)
      case Some(v) => Entry(tokens[0], v)
  }

  /** How the reader treats each line, in order. */
  function KindsOf(lines: seq<string>): (kinds: seq<LineKind>)
    ensures |kinds| == |lines|
  {
    seq(|lines|, i requires 0 <= i < |lines| => ClassifyLine(lines[i]))
  }

  /** The table built from classified lines, or the error of the first malformed one. */
  function TableOf(kinds: seq<LineKind>): Result<map<string, int>, LineError>
  {
    if |kinds| == 0 then Success(map[])
    else
      match TableOf(kinds[..|kinds| - 1])
      case Failure(e) => Failure(e)
      case Success(table) =>
        match kinds[|kinds| - 1]
        case Header => Success(table)
        case Entry(name, count) => Success(table[name := count])
        case Malformed(reason) => Failure(LineError(|kinds| - 1, reason))
  }

  /** The results table built from the lines, or the error of the first bad line. */
  function GroundTruthOf(lines: seq<string>): Result<map<string, int>, LineError>
  {
    TableOf(KindsOf(lines))
  }

  predicate IsEntryFor(kind: LineKind, name: string)
  {
    kind.Entry? && kind.name == name
  }

  /**
   * Reading fails exactly when some line is malformed, and then it reports
   * the first malformed line and its reason.
   */
  lemma {:induction false} TableErrors(kinds: seq<LineKind>)
    ensures TableOf(kinds).Failure? <==> exists i :: 0 <= i < |kinds| && kinds[i].Malformed?
    ensures TableOf(kinds).Failure? ==>
      var e := TableOf(kinds).error;
      && e.lineNo < |kinds|
      && kinds[e.lineNo] == Malformed(e.reason)
      && forall j :: 0 <= j < e.lineNo ==> !kinds[j].Malformed?
  {
    if |kinds| > 0 {
      var prefix := kinds[..|kinds| - 1];
      TableErrors(prefix);
      assert forall j :: 0 <= j < |prefix| ==> prefix[j] == kinds[j];
    }
  }

  /** On success, the names in the table are exactly the names of the entry lines. */
  lemma {:induction false} TableNames(kinds: seq<LineKind>)
    requires TableOf(kinds).Success?
    ensures forall name :: name in TableOf(kinds).value <==>
      exists i :: 0 <= i < |kinds| && IsEntryFor(kinds[i], name)
  {
    if |kinds| > 0 {
      var prefix := kinds[..|kinds| - 1];
      TableNames(prefix);
      assert forall j :: 0 <= j < |prefix| ==> prefix[j] == kinds[j];
    }
  }

  /**
   * On success, each name maps to the count of its LAST entry line: a later
   * duplicate overwrites an earlier one.
   */
  lemma {:induction false} TableLastWins(kinds: seq<LineKind>, name: string)
    requires TableOf(kinds).Success? && name in TableOf(kinds).value
    ensures exists i :: (0 <= i < |kinds| && kinds[i] == Entry(name, TableOf(kinds).value[name]) &&
      (forall j :: i < j < |kinds| ==> !IsEntryFor(kinds[j], name)))
  {
    var n := |kinds|;
    var prefix := kinds[..n - 1];
    var count := TableOf(kinds).value[name];
    if IsEntryFor(kinds[n - 1], name) {
      assert kinds[n - 1] == Entry(name, count);
    } else {
      TableLastWins(prefix, name);
      var i :| 0 <= i < |prefix| && prefix[i] == Entry(name, TableOf(prefix).value[name]) &&
        (forall j :: i < j < |prefix| ==> !IsEntryFor(prefix[j], name));
      assert kinds[i] == prefix[i];
      assert forall j :: i < j < n ==> !IsEntryFor(kinds[j], name) by {
        forall j | i < j < n
          ensures !IsEntryFor(kinds[j], name)
        {
          if j < n - 1 {
            assert kinds[j] == prefix[j];
          }
        }
      }
    }
  }

  /** Reading stops at the first malformed line: nothing after it changes the outcome. */
  lemma {:induction false} FailureIsFinal(kinds: seq<LineKind>, m: nat)
    requires m <= |kinds| && TableOf(kinds[..m]).Failure?
    ensures TableOf(kinds) == TableOf(kinds[..m])
  {
    if m < |kinds| {
      var prefix := kinds[..|kinds| - 1];
      assert prefix[..m] == kinds[..m];
      FailureIsFinal(prefix, m);
    } else {
      assert kinds[..m] == kinds;
    }
  }

  /** The header field never becomes a name in the table. */
  lemma HeaderNotAName(lines: seq<string>)
    requires GroundTruthOf(lines).Success?
    ensures HeaderField !in GroundTruthOf(lines).value
  {
    TableNames(KindsOf(lines));
  }

  /** A header line is skipped. */
  lemma ClassifyHeader()
    ensures ClassifyLine("file,hits") == Header
  {
    var line := "file,hits";
    StripUnchanged(line);
    assert line == Join(["file", "hits"], ',');
    SplitJoin(["file", "hits"], ',');
    assert Split(Strip(line), ',') == ["file", "hits"];
  }

  /** The text of a count has no comma, ends in a digit and parses back. */
  lemma ShownCount(count: int)
    ensures |ShowInt(count)| > 0 && ',' !in ShowInt(count)
    ensures IsDigit(ShowInt(count)[|ShowInt(count)| - 1])
    ensures ParseInt(ShowInt(count)) == Some(count)
  {
    ParseShowInt(count);
    var digits := ShowNat(if count < 0 then -count else count);
    ShowNatDigits(if count < 0 then -count else count);
    assert ShowInt(count) == if count < 0 then "-" + digits else digits;
  }

  /** A line written as `name,count` is read back as that entry. */
  lemma ClassifyWritten(name: string, count: int)
    requires name != HeaderField && ',' !in name
    requires |name| > 0 ==> !IsSpace(name[0])
    ensures ClassifyLine(name + "," + ShowInt(count)) == Entry(name, count)
  {
    var shown := ShowInt(count);
    var line := name + "," + shown;
    ShownCount(count);
    assert line == Join([name, shown], ',');
    SplitJoin([name, shown], ',');
    assert line[|line| - 1] == shown[|shown| - 1];
    assert line[0] == if |name| > 0 then name[0] else ',';
    StripUnchanged(line);
    assert Split(Strip(line), ',') == [name, shown];
  }

  /**
   * A count preceded by one of the separators U+001C..U+001F stops the reader:
   * `strip()` would skip the separator, but it sits inside the line, and `int()`
   * does not skip it.
   */
  lemma SeparatorBeforeCountFails(name: string, count: int, sepChar: char)
    requires name != HeaderField && ',' !in name
    requires |name| > 0 ==> !IsSpace(name[0])
    requires 0x1C <= sepChar as int <= 0x1F
    ensures ClassifyLine(name + "," + [sepChar] + ShowInt(count)) == Malformed(NotAnInteger)
  {
    var shown := ShowInt(count);
    var field := [sepChar] + shown;
    var line := name + "," + field;
    ShownCount(count);
    assert line == Join([name, field], ',');
    assert ',' !in field;
    SplitJoin([name, field], ',');
    assert line[|line| - 1] == shown[|shown| - 1];
    assert line[0] == if |name| > 0 then name[0] else ',';
    StripUnchanged(line);
    assert Split(Strip(line), ',') == [name, field];
    assert TrimEnd(TrimStart(field, IsIntSpace), IsIntSpace) == field;
    assert field[0] == sepChar && !IsDigit(sepChar);
    assert ParseInt(field) == None;
    assert ClassifyFields([name, field]) == Malformed(NotAnInteger);
    assert name + "," + [sepChar] + shown == line;
  }

  /** A results file made of a header and one well-formed line reads back as that line's name and count. */
  lemma ReadsWrittenLine(name: string, count: int)
    requires name != HeaderField && ',' !in name
    requires |name| > 0 ==> !IsSpace(name[0])
    ensures GroundTruthOf(["file,hits", name + "," + ShowInt(count)]) == Success(map[name := count])
  {
    ClassifyHeader();
    ClassifyWritten(name, count);
    KindsOfPair("file,hits", name + "," + ShowInt(count));
    TableOfHeaderThenEntry(name, count);
  }

  lemma KindsOfPair(first: string, second: string)
    ensures KindsOf([first, second]) == [ClassifyLine(first), ClassifyLine(second)]
  {
  }

  lemma TableOfHeaderThenEntry(name: string, count: int)
    ensures TableOf([Header, Entry(name, count)]) == Success(map[name := count])
  {
    var kinds := [Header, Entry(name, count)];
    var empty: map<string, int> := map[];
    assert kinds[..1][..0] == [];
    assert kinds[..1] == [Header];
    assert TableOf(kinds[..1]) == Success(empty);
    assert empty[name := count] == map[name := count];
  }

  /**
   * The reader of the main program: skip header lines, record every other
   * line's name and count in the table, and stop at the first line that has
   * no count or whose count is not an integer.
   */
  method ReadGroundTruth(lines: seq<string>) returns (result: Result<map<string, int>, LineError>)
    ensures result == GroundTruthOf(lines)
  {
    var correctResults: map<string, int> := map[];
    ghost var kinds := KindsOf(lines);
    for i := 0 to |lines|
      invariant TableOf(kinds[..i]) == Success(correctResults)
    {
      assert kinds[..i + 1][..i] == kinds[..i];
      var tokens := Split(Strip(lines[i]), ',');
      if tokens[0] == HeaderField {
        continue;
      }
      if |tokens| < 2 {
        FailureIsFinal(kinds, i + 1);
        return Failure(LineError(i, MissingCount));
      }
      var count := ParseInt(tokens[1]);
      if count.None? {
        FailureIsFinal(kinds, i + 1);
        return Failure(LineError(i, NotAnInteger));
      }
      correctResults := correctResults[tokens[0] := count.value];
    }
    assert kinds[..|lines|] == kinds;
    result := Success(correctResults);
  }
}
