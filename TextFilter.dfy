/** Building the awk command that keeps chosen columns of a delimited file
    (blockprocessor/text_filter.py). */
module TextFilter {
  import opened Results
  import opened PyStrings

  datatype Error =
    | InputMissing        // os.access(input, F_OK) is false
    | InputUnreadable     // os.access(input, R_OK) is false
    | NoColumnIndexes     // column_indexes is None, so .split raises

  /** What sanity_check hands on: the column indexes as text, and whether an existing output
      file is removed first. */
  datatype Checked = Checked(columns: seq<string>, removeOutput: bool)

  /** sanity_check: the input file must exist and be readable; the column list is the argument
      split on ','; an output file that already exists is removed. */
  function SanityCheck(present: bool, readable: bool, columnIndexes: Option<string>, outputExists: bool)
    : (r: Result<Checked, Error>)
    ensures r.Ok? <==> present && readable && columnIndexes.Some?
    ensures !present ==> r == Err(InputMissing)
    ensures present && !readable ==> r == Err(InputUnreadable)
    ensures present && readable && columnIndexes.None? ==> r == Err(NoColumnIndexes)
    ensures r.Ok? ==> && |r.value.columns| == Count(columnIndexes.value, ',') + 1
                      && Join(r.value.columns, ",") == columnIndexes.value
                      && (forall i :: 0 <= i < |r.value.columns| ==> ',' !in r.value.columns[i])
                      && r.value.removeOutput == outputExists
  {
    if !present then Err(InputMissing)
    else if !readable then Err(InputUnreadable)
    else if columnIndexes.None? then Err(NoColumnIndexes)
    else
      SplitJoin(columnIndexes.value, ',');
      Ok(Checked(Split(columnIndexes.value, ','), outputExists))
  }

  /** A list of comma-free column indexes is what the check makes of its own comma-join. */
  lemma ColumnsRoundTrip(columns: seq<string>)
    requires |columns| >= 1
    requires forall i :: 0 <= i < |columns| ==> ',' !in columns[i]
    ensures SanityCheck(true, true, Some(Join(columns, ",")), false).value.columns == columns
  {
    JoinSplit(columns, ',');
  }

  /** What awk prints between two columns: the string "," (three characters). */
  const FieldSeparator: string := "\",\""

  /** Each column index as an awk field reference. */
  function References(columns: seq<string>): (refs: seq<string>)
    ensures |refs| == |columns| && forall i :: 0 <= i < |refs| ==> refs[i] == "$" + columns[i]
  {
    seq(|columns|, i requires 0 <= i < |columns| => "$" + columns[i])
  }

  /** The print body: the field references joined by the separator. */
  function Segment(columns: seq<string>): string {
    Join(References(columns), FieldSeparator)
  }

  /** The -F clause: none for a missing separator. */
  function Clause(separator: Option<string>): string {
    match separator
    case None => ""
    case Some(s) => " -F \"" + s + "\""
  }

  /** The command create_command builds. */
  function Command(input: string, columns: seq<string>, separator: Option<string>, output: string): string {
    "awk" + Clause(separator) + " '{print " + Segment(columns) + "}' " + input + " > " + output
  }

  lemma {:induction false} JoinSnoc(parts: seq<string>, x: string, sep: string)
    ensures Join(parts + [x], sep) == if parts == [] then x else Join(parts, sep) + sep + x
  {
    if |parts| > 1 {
      assert (parts + [x])[1..] == parts[1..] + [x];
      JoinSnoc(parts[1..], x, sep);
    }
  }

  /** create_command: walks the columns with a counter, appending each reference followed by the
      separator for every column but the last, then adds the -F clause and the redirection. */
  method CreateCommand(input: string, columns: seq<string>, separator: Option<string>, output: string)
    returns (command: string)
    ensures command == Command(input, columns, separator, output)
  {
    var prefix, segment := "$", "";
    var count := 1;
    var n := |columns|;
    for i := 0 to n
      invariant count == if i == n && n > 0 then i else i + 1
      invariant segment == Join(References(columns)[..i], FieldSeparator) + (if 0 < i < n then FieldSeparator else "")
    {
      JoinSnoc(References(columns)[..i], References(columns)[i], FieldSeparator);
      assert References(columns)[..i + 1] == References(columns)[..i] + [References(columns)[i]];
      if count < n {
        segment := segment + (prefix + columns[i] + FieldSeparator);
        count := count + 1;
      } else {
        segment := segment + (prefix + columns[i]);
      }
    }
    assert References(columns)[..n] == References(columns);
    var delimiter := if separator.None? then "" else " -F \"" + separator.value + "\"";
    command := "awk" + delimiter + " '{print " + segment + "}' " + input + " > " + output;
  }

  /** One column gives its bare reference, with no separator. */
  lemma SingleColumn(c: string)
    ensures Segment([c]) == "$" + c
  {
    assert References([c]) == ["$" + c];
  }

  /** The text following each '$' of the print body, in order. */
  function Fields(columns: seq<string>): (f: seq<string>)
    ensures |f| == |columns|
  {
    seq(|columns|, i requires 0 <= i < |columns| =>
      columns[i] + (if i < |columns| - 1 then FieldSeparator else ""))
  }

  /** For columns without '$', the print body has exactly one '$' per column, and cutting it at
      the '$' signs gives back the columns in order, each but the last followed by the separator. */
  lemma SegmentFields(columns: seq<string>)
    requires |columns| >= 1
    requires forall i :: 0 <= i < |columns| ==> '$' !in columns[i]
    ensures Split(Segment(columns), '$') == [""] + Fields(columns)
    ensures Count(Segment(columns), '$') == |columns|
  {
    SegmentJoin(columns);
    var parts := [""] + Fields(columns);
    forall i | 0 <= i < |parts| ensures '$' !in parts[i] {
      if i > 0 {
        assert parts[i] == Fields(columns)[i - 1];
        assert '$' !in columns[i - 1] && '$' !in FieldSeparator;
      }
    }
    JoinSplit(parts, '$');
  }

  /** The print body is the fields, each introduced by '$'. */
  lemma {:induction false} SegmentJoin(columns: seq<string>)
    requires |columns| >= 1
    ensures Segment(columns) == Join([""] + Fields(columns), "$")
  {
    if |columns| == 1 {
      SingleColumn(columns[0]);
      assert Fields(columns) == [columns[0]] by {
        assert columns[0] + "" == columns[0];
      }
    } else {
      SegmentJoin(columns[1..]);
      SegmentCons(columns);
      FieldsCons(columns);
      assert ([""] + Fields(columns))[1..] == Fields(columns);
      assert ([""] + Fields(columns[1..]))[1..] == Fields(columns[1..]);
    }
  }

  lemma SegmentCons(columns: seq<string>)
    requires |columns| >= 2
    ensures Segment(columns) == "$" + columns[0] + FieldSeparator + Segment(columns[1..])
  {
    assert References(columns)[1..] == References(columns[1..]);
  }

  lemma FieldsCons(columns: seq<string>)
    requires |columns| >= 2
    ensures Fields(columns) == [columns[0] + FieldSeparator] + Fields(columns[1..])
  {
  }

  /** command_center: the sanity check, then the command for the checked column list; the output
      file is written by running it. */
  method CommandCenter(input: string, columnIndexes: Option<string>, separator: Option<string>, output: string,
                       present: bool, readable: bool, outputExists: bool)
    returns (r: Result<string, Error>)
    ensures r.Ok? <==> present && readable && columnIndexes.Some?
    ensures r.Err? ==> r.error == SanityCheck(present, readable, columnIndexes, outputExists).error
    ensures r.Ok? ==> r.value == Command(input, Split(columnIndexes.value, ','), separator, output)
  {
    var checked := SanityCheck(present, readable, columnIndexes, outputExists);
    if checked.Err? {
      return Err(checked.error);
    }
    var command := CreateCommand(input, checked.value.columns, separator, output);
    return Ok(command);
  }
}
