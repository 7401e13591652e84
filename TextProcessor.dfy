/** Relabelling an edge list with dense integer node ids (block_processor/text_processor.py):
    column names from the weighted flag, loading and cleaning the rows, the label -> id table,
    the in-place rewrite of the source and target columns, and the output file name. */
module TextProcessor {
  import opened Results
  import opened PyStrings
  import FileOperations

  datatype Error =
    | BadWeightedToken     // the weighted flag is none of yes/Yes/Y/y/no/No/N/n
    | InputMissing         // os.access(input, F_OK) is false
    | InputUnreadable      // os.access(input, R_OK) is false
    | NoOutputDirectory    // the directory of the input file is not a directory
    | BadWeight            // the weight converter raised on a field

  /** sanity_check: the column names the weighted flag calls for, after which the input file must
      exist and be readable. */
  function SanityCheck(token: string, present: bool, readable: bool): (r: Result<seq<string>, Error>)
    ensures r.Ok? <==> token in FileOperations.YesTokens + FileOperations.NoTokens && present && readable
    ensures r.Ok? ==> |r.value| >= 2 && r.value[..2] == ["source", "target"]
    ensures r.Ok? ==> (r.value == ["source", "target", "weight"] <==> token in FileOperations.YesTokens)
    ensures r.Ok? ==> (r.value == ["source", "target"] <==> token in FileOperations.NoTokens)
    ensures token !in FileOperations.YesTokens + FileOperations.NoTokens ==> r == Err(BadWeightedToken)
    ensures token in FileOperations.YesTokens + FileOperations.NoTokens && !present ==> r == Err(InputMissing)
    ensures token in FileOperations.YesTokens + FileOperations.NoTokens && present && !readable ==>
              r == Err(InputUnreadable)
  {
    var headers :=
      if token == "yes" || token == "Yes" || token == "Y" || token == "y" then Ok(["source", "target", "weight"])
      else if token == "no" || token == "No" || token == "N" || token == "n" then Ok(["source", "target"])
      else Err(BadWeightedToken);
    if headers.Err? then headers
    else if !present then Err(InputMissing)
    else if !readable then Err(InputUnreadable)
    else headers
  }

  /** The column names agree with is_weighted in file_operations: the same flags are accepted,
      and the number of names is the column count that check_columns expects. */
  lemma HeadersAgreeWithIsWeighted(token: string)
    ensures SanityCheck(token, true, true).Ok? <==> FileOperations.IsWeighted(token).Ok?
    ensures SanityCheck(token, true, true).Ok? ==>
              |SanityCheck(token, true, true).value|
              == FileOperations.ExpectedColumns(FileOperations.IsWeighted(token).value)
  {
  }

  // ---------------------------------------------------------------- weights

  /** The characters Python's str.isspace accepts (and int() strips). */
  predicate IsSpace(c: char) {
    c == ' ' || '\t' <= c <= '\r' || '\U{1c}' <= c <= '\U{1f}' || c == '\U{85}' || c == '\U{a0}'
    || c == '\U{1680}' || '\U{2000}' <= c <= '\U{200a}' || c == '\U{2028}' || c == '\U{2029}'
    || c == '\U{202f}' || c == '\U{205f}' || c == '\U{3000}'
  }

  function LStripSpace(s: string): (r: string)
    ensures r == [] || !IsSpace(r[0])
  {
    if s != [] && IsSpace(s[0]) then LStripSpace(s[1..]) else s
  }

  function RStripSpace(s: string): (r: string)
    ensures r == [] || !IsSpace(r[|r| - 1])
  {
    if s != [] && IsSpace(s[|s| - 1]) then RStripSpace(s[..|s| - 1]) else s
  }

  /** x.replace(c, '') */
  function RemoveAll(s: string, c: char): (r: string)
    ensures c !in r
    ensures forall x :: x != c ==> (x in r <==> x in s)
  {
    if s == [] then []
    else
      assert forall x :: x in s <==> x == s[0] || x in s[1..];
      (if s[0] == c then [] else [s[0]]) + RemoveAll(s[1..], c)
  }

  lemma {:induction false} RemoveAllConcat(a: string, b: string, c: char)
    ensures RemoveAll(a + b, c) == RemoveAll(a, c) + RemoveAll(b, c)
  {
    if a == [] {
      assert a + b == b;
    } else {
      assert (a + b)[0] == a[0];
      assert (a + b)[1..] == a[1..] + b;
      RemoveAllConcat(a[1..], b, c);
    }
  }

  lemma {:induction false} RemoveAllAbsent(s: string, c: char)
    requires c !in s
    ensures RemoveAll(s, c) == s
  {
    if s != [] {
      assert c !in s[1..];
      RemoveAllAbsent(s[1..], c);
      assert [s[0]] + s[1..] == s;
    }
  }

  predicate IsDigit(c: char) {
    '0' <= c <= '9'
  }

  /** Decimal digits, optionally grouped by single underscores between digits. */
  predicate IsDigitPart(s: string) {
    && |s| > 0 && IsDigit(s[0]) && IsDigit(s[|s| - 1])
    && (forall i :: 0 <= i < |s| ==> IsDigit(s[i]) || s[i] == '_')
    && (forall i :: 0 <= i < |s| - 1 ==> !(s[i] == '_' && s[i + 1] == '_'))
  }

  /** The value of a string of decimal digits; underscores are skipped. */
  function DigitsValue(s: string): nat
    requires forall i :: 0 <= i < |s| ==> IsDigit(s[i]) || s[i] == '_'
  {
    if s == [] then 0
    else
      var last := s[|s| - 1];
      assert IsDigit(last) || last == '_';
      assert forall i :: 0 <= i < |s| - 1 ==> s[..|s| - 1][i] == s[i];
      if last == '_' then DigitsValue(s[..|s| - 1])
      else DigitsValue(s[..|s| - 1]) * 10 + (last as int - '0' as int)
  }

  /** int(s) on a str in base 10: surrounding whitespace, an optional sign, then decimal digits
      (single underscores allowed between them); None where Python raises ValueError. */
  function ParseInt(s: string): (r: Option<int>)
  {
    var t := RStripSpace(LStripSpace(s));
    if |t| > 0 && (t[0] == '+' || t[0] == '-') then
      if IsDigitPart(t[1..]) then
        var v: int := DigitsValue(t[1..]);
        Some(if t[0] == '-' then -v else v)
      else None
    else if IsDigitPart(t) then Some(DigitsValue(t))
    else None
  }

  /** str(n) for an integer. */
  function Show(n: int): string {
    if n < 0 then "-" + ShowNat(-n) else ShowNat(n)
  }

  function ShowNat(n: nat): (s: string)
    ensures |s| > 0 && forall i :: 0 <= i < |s| ==> IsDigit(s[i])
  {
    if n < 10 then [('0' as int + n) as char]
    else
      var d := ShowNat(n / 10);
      var s := d + [('0' as int + n % 10) as char];
      assert forall i :: 0 <= i < |d| ==> s[i] == d[i];
      s
  }

  lemma {:induction false} ShowNatValue(n: nat)
    ensures DigitsValue(ShowNat(n)) == n
  {
    if n >= 10 {
      ShowNatValue(n / 10);
      var s := ShowNat(n);
      assert s[..|s| - 1] == ShowNat(n / 10);
    }
  }

  /** Rendering an integer and parsing it back gives the integer. */
  lemma ParseShow(n: int)
    ensures ParseInt(Show(n)) == Some(n)
  {
    var m := if n < 0 then -n else n;
    var digits := ShowNat(m);
    ShowNatValue(m);
    if n < 0 {
      var s := Show(n);
      assert s[1..] == digits;
      assert s[|s| - 1] == digits[|digits| - 1];
    }
  }

  /** The field with every ' ' and every '\n' removed. */
  function Blanked(text: string): (r: string)
    ensures ' ' !in r && '\n' !in r
  {
    RemoveAll(RemoveAll(text, ' '), '\n')
  }

  lemma BlankedConcat(a: string, b: string)
    ensures Blanked(a + b) == Blanked(a) + Blanked(b)
  {
    RemoveAllConcat(a, b, ' ');
    RemoveAllConcat(RemoveAll(a, ' '), RemoveAll(b, ' '), '\n');
  }

  /** clean_convert_weight up to its logarithm: the blanked field parsed as an integer x; the
      weight is log(1 + x), which Python refuses for x <= -1. */
  function CleanConvertWeight(text: string): (r: Result<nat, Error>)
    ensures r.Ok? <==> ParseInt(Blanked(text)).Some? && ParseInt(Blanked(text)).value >= 0
    ensures r.Ok? ==> r.value == ParseInt(Blanked(text)).value
    ensures r.Err? ==> r == Err(BadWeight)
  {
    match ParseInt(Blanked(text))
    case None => Err(BadWeight)
    case Some(x) => if 1 + x > 0 then Ok(x) else Err(BadWeight)
  }

  /** The rendering of a non-negative integer converts back to it; a negative one is refused. */
  lemma WeightRoundTrip(n: int)
    ensures CleanConvertWeight(Show(n)) == if n >= 0 then Ok(n) else Err(BadWeight)
  {
    var s := Show(n);
    assert ' ' !in s && '\n' !in s by {
      var digits := ShowNat(if n < 0 then -n else n);
      assert forall i :: 0 <= i < |digits| ==> digits[i] != ' ' && digits[i] != '\n';
    }
    RemoveAllAbsent(s, ' ');
    RemoveAllAbsent(s, '\n');
    assert Blanked(s) == s;
    ParseShow(n);
  }

  /** A blank or newline anywhere in the field does not change the converted weight. */
  lemma BlankIgnored(a: string, b: string, c: char)
    requires c == ' ' || c == '\n'
    ensures CleanConvertWeight(a + [c] + b) == CleanConvertWeight(a + b)
  {
    BlankDropped(a, b, c);
  }

  lemma BlankDropped(a: string, b: string, c: char)
    requires c == ' ' || c == '\n'
    ensures Blanked(a + [c] + b) == Blanked(a + b)
  {
    assert a + [c] + b == a + ([c] + b);
    BlankedConcat(a, [c] + b);
    BlankedConcat([c], b);
    BlankedConcat(a, b);
    BlankedBlank(c);
  }

  lemma BlankedBlank(c: char)
    requires c == ' ' || c == '\n'
    ensures Blanked([c]) == []
  {
    assert [c][1..] == [];
    var once := RemoveAll([c], ' ');
    if c == ' ' {
      assert once == [] + RemoveAll([], ' ') == [];
    } else {
      assert once == [c] + RemoveAll([], ' ') == [c];
      assert RemoveAll(once, '\n') == [] + RemoveAll([], '\n');
    }
  }

  // ---------------------------------------------------------------- loading

  /** A row as the CSV reader splits it: the text of each field (its str() rendering), None for
      a blank or missing field. A blank or missing source or target is NaN. The weight field is
      only read when there are three column names, and then it goes through the converter as
      text whatever it holds: the reader hands the converter an empty text for a blank or missing
      field and does not catch the converter's errors. */
  datatype RawRow = RawRow(source: Option<string>, target: Option<string>, weight: Option<string>)

  /** A row of the loaded frame; weight is None in a two-column frame. */
  datatype Edge = Edge(source: string, target: string, weight: Option<nat>)

  /** Labels shorter than this are filtered out. */
  const MinLabelLength: nat := 34

  /** The weight converter is installed exactly for three column names. */
  predicate ConvertsWeight(headers: seq<string>) {
    |headers| == 3
  }

  /** The text the converter receives for a row's weight field. */
  function WeightText(row: RawRow): string {
    if row.weight.Some? then row.weight.value else ""
  }

  /** Whether the weight converter accepts the weight field of every row. */
  predicate WeightsParse(rows: seq<RawRow>) {
    forall i :: 0 <= i < |rows| ==> CleanConvertWeight(WeightText(rows[i])).Ok?
  }

  /** The converted weight column. */
  function Weights(rows: seq<RawRow>): (w: seq<nat>)
    requires WeightsParse(rows)
    ensures |w| == |rows|
    ensures forall i :: 0 <= i < |rows| ==> Ok(w[i]) == CleanConvertWeight(WeightText(rows[i]))
  {
    seq(|rows|, i requires 0 <= i < |rows| => CleanConvertWeight(WeightText(rows[i])).value)
  }

  /** A row survives dropna() (no NaN among the frame's columns; a converted weight is never
      NaN) and the length filter (both labels at least MinLabelLength long). */
  predicate Kept(row: RawRow) {
    && row.source.Some? && row.target.Some?
    && |row.source.value| >= MinLabelLength && |row.target.value| >= MinLabelLength
  }

  /** The weight column of the frame: the converted weights, or NaN throughout without a
      weight column. */
  function WeightColumn(rows: seq<RawRow>, weighted: bool): (w: seq<Option<nat>>)
    requires weighted ==> WeightsParse(rows)
    ensures |w| == |rows|
    ensures forall i :: 0 <= i < |rows| ==>
              && (w[i].Some? <==> weighted)
              && (weighted ==> Ok(w[i].value) == CleanConvertWeight(WeightText(rows[i])))
  {
    if weighted then
      var ws := Weights(rows);
      seq(|rows|, i requires 0 <= i < |rows| => Some(ws[i]))
    else seq(|rows|, i => None)
  }

  /** The positions of the surviving rows, in order. */
  function KeptIndices(rows: seq<RawRow>): (idx: seq<nat>)
    ensures forall j :: 0 <= j < |idx| ==> idx[j] < |rows| && Kept(rows[idx[j]])
    ensures forall j, k :: 0 <= j < k < |idx| ==> idx[j] < idx[k]
    ensures forall i :: 0 <= i < |rows| && Kept(rows[i]) ==> i in idx
  {
    if rows == [] then []
    else
      var n := |rows| - 1;
      var init := KeptIndices(rows[..n]);
      assert forall i :: 0 <= i < n ==> rows[..n][i] == rows[i];
      if Kept(rows[n]) then init + [n] else init
  }

  /** load_file after the reader: weights converted when three names are given (a refused field,
      blank ones included, aborts the load), rows with NaN dropped, rows with a short label
      dropped, and the survivors renumbered 0..k-1 in their original order. */
  function LoadFile(rows: seq<RawRow>, headers: seq<string>): (r: Result<seq<Edge>, Error>)
    ensures r.Err? <==> ConvertsWeight(headers) && !WeightsParse(rows)
    ensures r.Ok? ==>
              var idx := KeptIndices(rows);
              && |r.value| == |idx|
              && forall j :: 0 <= j < |idx| ==>
                   && r.value[j].source == rows[idx[j]].source.value
                   && r.value[j].target == rows[idx[j]].target.value
                   && (r.value[j].weight.Some? <==> ConvertsWeight(headers))
                   && (ConvertsWeight(headers) ==>
                         Ok(r.value[j].weight.value) == CleanConvertWeight(WeightText(rows[idx[j]])))
    ensures r.Ok? ==> forall j :: 0 <= j < |r.value| ==>
              |r.value[j].source| >= MinLabelLength && |r.value[j].target| >= MinLabelLength
  {
    var weighted := ConvertsWeight(headers);
    if weighted && !WeightsParse(rows) then
      Err(BadWeight)
    else
      var weights := WeightColumn(rows, weighted);
      var idx := KeptIndices(rows);
      Ok(seq(|idx|, j requires 0 <= j < |idx| =>
        Edge(rows[idx[j]].source.value, rows[idx[j]].target.value, weights[idx[j]])))
  }

  /** With three column names, a row whose weight field is missing, empty or only blanks and
      newlines aborts the load, even when its labels would have been dropped. */
  lemma BlankWeightAbortsLoad(rows: seq<RawRow>, headers: seq<string>, i: nat)
    requires ConvertsWeight(headers) && i < |rows|
    requires Blanked(WeightText(rows[i])) == []
    ensures LoadFile(rows, headers) == Err(BadWeight)
  {
  }

  // ---------------------------------------------------------------- node ids

  function Sources(edges: seq<Edge>): (s: seq<string>)
    ensures |s| == |edges| && forall i :: 0 <= i < |edges| ==> s[i] == edges[i].source
  {
    seq(|edges|, i requires 0 <= i < |edges| => edges[i].source)
  }

  function Targets(edges: seq<Edge>): (s: seq<string>)
    ensures |s| == |edges| && forall i :: 0 <= i < |edges| ==> s[i] == edges[i].target
  {
    seq(|edges|, i requires 0 <= i < |edges| => edges[i].target)
  }

  /** df[['source', 'target']].values.ravel('K'): the two columns form one block stored column
      by column, so ravel in memory order reads every source before every target. */
  function Flattened(edges: seq<Edge>): seq<string> {
    Sources(edges) + Targets(edges)
  }

  predicate Distinct(s: seq<string>) {
    forall i, j :: 0 <= i < j < |s| ==> s[i] != s[j]
  }

  /** Position of the first occurrence of x in s. */
  function FirstIndex(s: seq<string>, x: string): (i: nat)
    requires x in s
    ensures i < |s| && s[i] == x && x !in s[..i]
  {
    if s[0] == x then 0
    else
      var k := FirstIndex(s[1..], x);
      assert s[..k + 1] == [s[0]] + s[1..][..k];
      k + 1
  }

  /** pd.unique: the distinct values in order of first occurrence. */
  function Unique(s: seq<string>): (u: seq<string>)
    ensures Distinct(u)
    ensures forall x :: x in u <==> x in s
  {
    if s == [] then []
    else
      var init := Unique(s[..|s| - 1]);
      assert forall x :: x in s <==> x in s[..|s| - 1] || x == s[|s| - 1];
      if s[|s| - 1] in init then init else init + [s[|s| - 1]]
  }

  lemma FirstIndexPrefix(s: seq<string>, n: nat, x: string)
    requires n <= |s| && x in s[..n]
    ensures FirstIndex(s, x) == FirstIndex(s[..n], x)
  {
    var i := FirstIndex(s[..n], x);
    assert s[..n][..i] == s[..i];
  }

  /** pd.unique keeps first-occurrence order: an earlier unique value first occurs earlier. */
  lemma {:induction false} UniqueOrder(s: seq<string>)
    ensures forall i, j :: 0 <= i < j < |Unique(s)| ==> FirstIndex(s, Unique(s)[i]) < FirstIndex(s, Unique(s)[j])
  {
    if s != [] {
      var n := |s| - 1;
      var init := Unique(s[..n]);
      UniqueOrder(s[..n]);
      forall x | x in init ensures FirstIndex(s, x) == FirstIndex(s[..n], x) && FirstIndex(s, x) < n {
        FirstIndexPrefix(s, n, x);
      }
      if s[n] !in init {
        assert s[n] !in s[..n];
        assert FirstIndex(s, s[n]) == n;
      }
    }
  }

  lemma {:induction false} DistinctCard(u: seq<string>)
    requires Distinct(u)
    ensures |set x | x in u| == |u|
  {
    if u != [] {
      var init := u[..|u| - 1];
      DistinctCard(init);
      assert (set x | x in u) == (set x | x in init) + {u[|u| - 1]};
      assert u[|u| - 1] !in init;
    }
  }

  /** Each value of u to its position. */
  function IndexMap(u: seq<string>): map<string, nat>
    requires Distinct(u)
  {
    map i | 0 <= i < |u| :: u[i] := i
  }

  lemma IndexMapSpec(u: seq<string>)
    requires Distinct(u)
    ensures forall x :: x in IndexMap(u) <==> x in u
    ensures |IndexMap(u)| == |u|
    ensures forall x :: x in IndexMap(u) ==> IndexMap(u)[x] < |u| && u[IndexMap(u)[x]] == x
    ensures forall i :: 0 <= i < |u| ==> i in IndexMap(u).Values
  {
    var m := IndexMap(u);
    assert forall i :: 0 <= i < |u| ==> u[i] in m && m[u[i]] == i;
    assert m.Keys == set x | x in u;
    DistinctCard(u);
    forall i | 0 <= i < |u| ensures i in m.Values {
      assert m[u[i]] == i;
    }
  }

  /** extract_nodes: every distinct label gets the position of its first occurrence among the
      flattened labels; the table is a bijection from the labels onto 0..n-1. */
  function ExtractNodes(edges: seq<Edge>): (m: map<string, nat>)
    ensures forall x :: x in m <==> x in Flattened(edges)
    ensures |m| == |Unique(Flattened(edges))|
    ensures forall x :: x in m ==> m[x] < |m| && Unique(Flattened(edges))[m[x]] == x
    ensures forall x, y :: x in m && y in m && x != y ==> m[x] != m[y]
    ensures forall i :: 0 <= i < |m| ==> i in m.Values
  {
    var u := Unique(Flattened(edges));
    IndexMapSpec(u);
    IndexMap(u)
  }

  /** Ids follow first-occurrence order of the labels. */
  lemma IdsFollowFirstOccurrence(edges: seq<Edge>, x: string, y: string)
    requires x in Flattened(edges) && y in Flattened(edges)
    ensures ExtractNodes(edges)[x] < ExtractNodes(edges)[y]
            <==> FirstIndex(Flattened(edges), x) < FirstIndex(Flattened(edges), y)
  {
    var s := Flattened(edges);
    var m := ExtractNodes(edges);
    UniqueOrder(s);
    var u := Unique(s);
    assert u[m[x]] == x && u[m[y]] == y;
    if m[x] > m[y] {
      assert FirstIndex(s, u[m[y]]) < FirstIndex(s, u[m[x]]);
    }
  }

  // ---------------------------------------------------------------- mapping

  /** A cell of the source or target column: a label, an integer id, or NaN. */
  datatype Cell = Label(text: string) | Id(id: nat) | NaN

  /** Series.map(dict) on one cell: a label the dictionary holds becomes its id, anything else NaN. */
  function MapCell(c: Cell, mapping: map<string, nat>): Cell {
    match c
    case Label(t) => if t in mapping then Id(mapping[t]) else NaN
    case _ => NaN
  }

  function MapColumn(column: seq<Cell>, mapping: map<string, nat>): (r: seq<Cell>)
    ensures |r| == |column| && forall i :: 0 <= i < |r| ==> r[i] == MapCell(column[i], mapping)
  {
    seq(|column|, i requires 0 <= i < |column| => MapCell(column[i], mapping))
  }

  /** The pandas frame the relabelling works on, column by column. */
  class Frame {
    var source: seq<Cell>
    var target: seq<Cell>
    var weight: seq<Option<nat>>

    ghost predicate Valid()
      reads this
    {
      |source| == |target| == |weight|
    }

    /** The frame load_file returns. */
    constructor (edges: seq<Edge>)
      ensures Valid() && |source| == |edges|
      ensures forall i :: 0 <= i < |edges| ==>
                source[i] == Label(edges[i].source) && target[i] == Label(edges[i].target) && weight[i] == edges[i].weight
    {
      source := seq(|edges|, i requires 0 <= i < |edges| => Label(edges[i].source));
      target := seq(|edges|, i requires 0 <= i < |edges| => Label(edges[i].target));
      weight := seq(|edges|, i requires 0 <= i < |edges| => edges[i].weight);
    }

    /** numeric_mapping: the source and target columns are overwritten by their images under the
        mapping; the weight column and the row count stay as they were. */
    method NumericMapping(mapping: map<string, nat>)
      requires Valid()
      modifies this
      ensures Valid()
      ensures source == MapColumn(old(source), mapping)
      ensures target == MapColumn(old(target), mapping)
      ensures weight == old(weight)
    {
      source := MapColumn(source, mapping);
      target := MapColumn(target, mapping);
    }

    /** The rows of a fully mapped frame, as the output file lists them. */
    method IdRows() returns (rows: seq<NumericEdge>)
      requires Valid()
      requires forall i :: 0 <= i < |source| ==> source[i].Id? && target[i].Id?
      ensures |rows| == |source|
      ensures forall i :: 0 <= i < |rows| ==> rows[i] == NumericEdge(source[i].id, target[i].id, weight[i])
    {
      rows := [];
      for i := 0 to |source|
        invariant |rows| == i
        invariant forall k :: 0 <= k < i ==> rows[k] == NumericEdge(source[k].id, target[k].id, weight[k])
      {
        rows := rows + [NumericEdge(source[i].id, target[i].id, weight[i])];
      }
    }
  }

  /** With the table extract_nodes builds from the same rows, mapping leaves no NaN: every label
      becomes an id below the node count, and that id leads back to the label. */
  lemma MappingComplete(edges: seq<Edge>, i: nat)
    requires i < |edges|
    ensures var m := ExtractNodes(edges);
            && MapCell(Label(edges[i].source), m).Id?
            && MapCell(Label(edges[i].target), m).Id?
            && MapCell(Label(edges[i].source), m).id < |m|
            && MapCell(Label(edges[i].target), m).id < |m|
            && Unique(Flattened(edges))[MapCell(Label(edges[i].source), m).id] == edges[i].source
            && Unique(Flattened(edges))[MapCell(Label(edges[i].target), m).id] == edges[i].target
  {
    var s := Flattened(edges);
    assert s[i] == edges[i].source;
    assert s[|edges| + i] == edges[i].target;
  }

  /** A relabelled row: the ids of its labels and its weight. */
  datatype NumericEdge = NumericEdge(source: nat, target: nat, weight: Option<nat>)

  /** The row n is the row e with its labels replaced by their positions in labels. */
  predicate RowRelabelled(n: NumericEdge, e: Edge, labels: seq<string>) {
    && n.source < |labels| && n.target < |labels|
    && labels[n.source] == e.source && labels[n.target] == e.target
    && n.weight == e.weight
  }

  /** numeric is edges relabelled row by row through the first-occurrence order of the labels. */
  predicate Relabelled(numeric: seq<NumericEdge>, edges: seq<Edge>) {
    && |numeric| == |edges|
    && forall j :: 0 <= j < |numeric| ==> RowRelabelled(numeric[j], edges[j], Unique(Flattened(edges)))
  }

  // ---------------------------------------------------------------- output name

  /** get_dir_path: the input's directory (which must exist) and the output file name, the input
      file's base name with '_numeric' before its extension. dirExists is what the file system
      answers for the directory part when it is not empty; os.path.isdir('') is False, so a bare
      file name has no output directory. */
  function GetDirPath(input: string, dirExists: bool): (r: Result<(string, string), Error>)
    ensures r.Ok? <==> dirExists && Dirname(input) != []
    ensures r.Ok? ==> r.value.0 == Dirname(input)
    ensures r.Ok? ==>
              var (base, extension) := SplitExt(Basename(input));
              && r.value.1 == base + "_numeric" + extension
              && SplitExt(r.value.1) == (base + "_numeric", extension)
  {
    var (base, extension) := SplitExt(Basename(input));
    SplitExtInsert(Basename(input), "_numeric");
    if dirExists && Dirname(input) != [] then Ok((Dirname(input), base + "_numeric" + extension))
    else Err(NoOutputDirectory)
  }

  /** command_center: check the arguments, name the output, load and clean the rows, build the
      label table and rewrite the frame through it. The result is the output directory, the
      output file name, the relabelled rows and the node count. */
  method CommandCenter(input: string, token: string, present: bool, readable: bool, dirExists: bool,
                       rows: seq<RawRow>)
    returns (r: Result<(string, string, seq<NumericEdge>, nat), Error>)
    ensures r.Ok? <==> && SanityCheck(token, present, readable).Ok? && dirExists && Dirname(input) != []
                       && LoadFile(rows, SanityCheck(token, present, readable).value).Ok?
    ensures r.Ok? ==>
              var edges := LoadFile(rows, SanityCheck(token, present, readable).value).value;
              && r.value.0 == Dirname(input)
              && r.value.1 == GetDirPath(input, dirExists).value.1
              && Relabelled(r.value.2, edges)
              && r.value.3 == |ExtractNodes(edges)|
  {
    var headers := SanityCheck(token, present, readable);
    if headers.Err? {
      return Err(headers.error);
    }
    var paths := GetDirPath(input, dirExists);
    if paths.Err? {
      return Err(paths.error);
    }
    var loaded := LoadFile(rows, headers.value);
    if loaded.Err? {
      return Err(loaded.error);
    }
    var edges := loaded.value;
    var mapping := ExtractNodes(edges);
    var frame := new Frame(edges);
    frame.NumericMapping(mapping);
    forall i | 0 <= i < |edges|
      ensures frame.source[i].Id? && frame.target[i].Id?
      ensures RowRelabelled(NumericEdge(frame.source[i].id, frame.target[i].id, frame.weight[i]),
                            edges[i], Unique(Flattened(edges)))
    {
      MappingComplete(edges, i);
    }
    var numeric := frame.IdRows();
    r := Ok((paths.value.0, paths.value.1, numeric, |mapping|));
  }
}
