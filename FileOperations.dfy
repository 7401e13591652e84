/** Input sanity validation, output naming and the grouping of a node -> cluster mapping into
    per-cluster member lists (block_processor/file_operations.py). */
module FileOperations {
  import opened Results
  import opened PyStrings

  /** What the library sniffer (csv.Sniffer) reported for the sample: the delimiter it
      detected and whether it judged the first line to be a header. */
  datatype Sniffed = Sniffed(delimiter: char, hasHeader: bool)

  /** The four results of file_sniffer. */
  datatype FileInfo = FileInfo(delimiter: char, headers: Option<seq<string>>, nCols: nat, skipRows: nat)

  datatype Error =
    | SniffFailed        // the sniffer raised, leaving the delimiter and header flag unbound
    | BadWeightedToken   // the weighted flag is none of yes/Yes/Y/y/no/No/N/n
    | NoOutputDirectory  // the directory of the input file is not a directory

  /** Number of lines file_sniffer reads as its sample. */
  const SampleLines: nat := 5

  /** file_sniffer after the library sniffer has answered: the fields of the first line of the
      sample, split at the detected delimiter, give the column count; they are the headers
      (and one row is skipped) exactly when a header was detected. The content is the file's
      text as text mode reads it, after universal-newline translation ("\r\n" and "\r" already
      turned into "\n"). */
  function FileSniffer(content: string, sniffed: Option<Sniffed>): (r: Result<FileInfo, Error>)
    ensures r.Err? <==> sniffed.None?
    ensures r.Ok? ==>
              var line, d := FirstLine(content), sniffed.value.delimiter;
              && r.value.delimiter == d
              && r.value.nCols == Count(line, d) + 1
              && r.value.skipRows == (if sniffed.value.hasHeader then 1 else 0)
              && (r.value.headers.Some? <==> sniffed.value.hasHeader)
              && (r.value.headers.Some? ==>
                    |r.value.headers.value| == r.value.nCols && Join(r.value.headers.value, [d]) == line)
  {
    match sniffed
    case None => Err(SniffFailed)
    case Some(s) =>
      var line := FirstLine(HeadLines(content, SampleLines));
      FirstLineOfHead(content, SampleLines);
      SplitJoin(line, s.delimiter);
      var fields := Split(line, s.delimiter);
      if s.hasHeader then Ok(FileInfo(s.delimiter, Some(fields), |fields|, 1))
      else Ok(FileInfo(s.delimiter, None, |fields|, 0))
  }

  /** check_file_header: 0 for an active header, 1 when no header was detected or it is
      commented out with '#'. */
  function CheckFileHeader(headers: Option<seq<string>>): (status: int)
    ensures status == 0 || status == 1
    ensures status == 0 <==> headers.Some? && |headers.value| > 0 && !StartsWith(headers.value[0], "#")
  {
    match headers
    case None => 1
    case Some(h) =>
      if h == [] then 1
      else if StartsWith(h[0], "#") then 1
      else 0
  }

  /** check_delimiter: 1 when the provided delimiter is the detected one, 2 otherwise; an unset
      provided delimiter never equals the detected one. */
  function CheckDelimiter(detected: char, provided: Option<string>): (status: int)
    ensures status == 1 || status == 2
    ensures status == 1 <==> provided == Some([detected])
    ensures provided.None? ==> status == 2
  {
    if provided != Some([detected]) then 2 else 1
  }

  const YesTokens: set<string> := {"yes", "Yes", "Y", "y"}
  const NoTokens: set<string> := {"no", "No", "N", "n"}

  /** is_weighted: the weighted flag as a boolean; any other spelling is an error. */
  function IsWeighted(token: string): (r: Result<bool, Error>)
    ensures r == Ok(true) <==> token in YesTokens
    ensures r == Ok(false) <==> token in NoTokens
    ensures r.Err? <==> token !in YesTokens + NoTokens
  {
    if token == "yes" || token == "Yes" || token == "Y" || token == "y" then Ok(true)
    else if token == "no" || token == "No" || token == "N" || token == "n" then Ok(false)
    else Err(BadWeightedToken)
  }

  /** The column count a weighting declaration calls for. */
  function ExpectedColumns(weighted: bool): nat {
    if weighted then 3 else 2
  }

  /** check_columns: 1 exactly when a weighted file has three columns or an unweighted one two. */
  function CheckColumns(nCols: int, token: string): (r: Result<int, Error>)
    ensures r.Err? <==> token !in YesTokens + NoTokens
    ensures r.Ok? ==> r.value == 0 || r.value == 1
    ensures r.Ok? ==> (r.value == 1 <==> (token in YesTokens && nCols == 3) || (token in NoTokens && nCols == 2))
  {
    match IsWeighted(token)
    case Err(e) => Err(e)
    case Ok(weighted) =>
      if weighted then (if nCols == 3 then Ok(1) else Ok(0))
      else (if nCols == 2 then Ok(1) else Ok(0))
  }

  /** Python's `a and b` on integers: a when it is falsy (zero), b otherwise. */
  function And(a: int, b: int): int {
    if a == 0 then a else b
  }

  /** generate_sanity_status: an accumulator that starts at 1 and is and-ed with 1 for every
      passing code and with 0 for every failing one; the delimiter codes (1 and 2) both pass. */
  method GenerateSanityStatus(header: int, delimiter: int, column: int) returns (status: int)
    ensures status == 0 || status == 1
    ensures status == 0 <==> header == 0 || column == 0
  {
    status := 1;
    if header == 1 {
      status := And(status, 1);
    } else if header == 0 {
      status := And(status, 0);
    }
    if delimiter == 1 {
      status := And(status, 1);
    } else if delimiter == 2 {
      status := And(status, 1);
    }
    if column == 1 {
      status := And(status, 1);
    } else if column == 0 {
      status := And(status, 0);
    }
  }

  /** The header test on a whole file: no header line was detected, or the first line starts
      with '#' (and '#' is not the delimiter, which would leave the first field empty). */
  predicate HeaderCommented(content: string, s: Sniffed) {
    !s.hasHeader || (StartsWith(FirstLine(content), "#") && s.delimiter != '#')
  }

  /** The header status file_sniffer and check_file_header give together is 1 exactly when the
      file's header is commented out or absent. */
  lemma HeaderStatusOfFile(content: string, s: Sniffed)
    ensures FileSniffer(content, Some(s)).Ok?
    ensures CheckFileHeader(FileSniffer(content, Some(s)).value.headers) == 1 <==> HeaderCommented(content, s)
  {
    var line := FirstLine(content);
    FirstLineOfHead(content, SampleLines);
    var first := Split(line, s.delimiter)[0];
    if s.hasHeader && StartsWith(line, "#") && s.delimiter != '#' {
      assert |first| > 0;
      assert first[0] == line[0];
    }
    if s.hasHeader && StartsWith(first, "#") {
      assert first[0] == line[0];
      assert first[0] in first;
    }
  }

  /** sanity_check: sniff the file, run the three checks and combine them. The result is 1
      exactly when the header is commented or absent and the first line has the column count
      the weighted flag calls for; the provided delimiter never changes it. */
  method SanityCheck(content: string, sniffed: Option<Sniffed>, delimiter: Option<string>, weighted: string)
    returns (r: Result<int, Error>)
    ensures r.Err? <==> sniffed.None? || weighted !in YesTokens + NoTokens
    ensures sniffed.None? ==> r == Err(SniffFailed)
    ensures r.Ok? ==> r.value == 0 || r.value == 1
    ensures r.Ok? ==>
              (r.value == 1 <==>
                 && HeaderCommented(content, sniffed.value)
                 && Count(FirstLine(content), sniffed.value.delimiter) + 1
                    == ExpectedColumns(weighted in YesTokens))
  {
    var info := FileSniffer(content, sniffed);
    if info.Err? {
      return Err(info.error);
    }
    HeaderStatusOfFile(content, sniffed.value);
    var headerStatus := CheckFileHeader(info.value.headers);
    var delimiterStatus := CheckDelimiter(info.value.delimiter, delimiter);
    var columnStatus := CheckColumns(info.value.nCols, weighted);
    if columnStatus.Err? {
      return Err(columnStatus.error);
    }
    var status := GenerateSanityStatus(headerStatus, delimiterStatus, columnStatus.value);
    r := Ok(status);
  }

  /** get_dir_path: the directory of the input file, which has to exist. dirExists is what the
      file system answers for the directory part when it is not empty; os.path.isdir('') is
      False, so a bare file name has no output directory. */
  function OutputDirectory(input: string, dirExists: bool): (r: Result<string, Error>)
    ensures r.Ok? <==> dirExists && Dirname(input) != []
    ensures r.Ok? ==> DirShaped(r.value) && r.value == Dirname(input)
  {
    DirnameShaped(input);
    if dirExists && Dirname(input) != [] then Ok(Dirname(input)) else Err(NoOutputDirectory)
  }

  lemma PathJoinEndsWith(a: string, b: string)
    ensures EndsWith(PathJoin(a, b), b)
  {
    var p := PathJoin(a, b);
    assert p[|p| - |b|..] == b;
  }

  /** The output file name: prefix + '_' + base name + extension of the input's file name. */
  function OutputFileName(input: string, prefix: string): (name: string)
    ensures name == prefix + "_" + Basename(input)
  {
    var (base, extension) := SplitExt(Basename(input));
    prefix + "_" + base + extension
  }

  lemma OutputPathSpec(dir: string, input: string, prefix: string)
    requires DirShaped(dir) && dir == Dirname(input)
    ensures EndsWith(PathJoin(dir, OutputFileName(input, prefix)), prefix + "_" + Basename(input))
    ensures '/' !in prefix ==>
              && Dirname(PathJoin(dir, OutputFileName(input, prefix))) == Dirname(input)
              && Basename(PathJoin(dir, OutputFileName(input, prefix))) == prefix + "_" + Basename(input)
  {
    var name := OutputFileName(input, prefix);
    PathJoinEndsWith(dir, name);
    if '/' !in prefix {
      assert '/' !in name;
      DirnameBasenameOfJoin(dir, name);
    }
  }

  /** generate_output_filename: the input's directory joined with prefix + '_' + the input's
      file name, extension included. */
  function GenerateOutputFilename(input: string, prefix: string, dirExists: bool): (r: Result<string, Error>)
    ensures r.Ok? <==> dirExists && Dirname(input) != []
    ensures r.Ok? ==> r.value == PathJoin(Dirname(input), prefix + "_" + Basename(input))
    ensures r.Ok? ==> EndsWith(r.value, prefix + "_" + Basename(input))
    ensures r.Ok? && '/' !in prefix ==>
              Dirname(r.value) == Dirname(input) && Basename(r.value) == prefix + "_" + Basename(input)
  {
    match OutputDirectory(input, dirExists)
    case Err(e) => Err(e)
    case Ok(dir) =>
      OutputPathSpec(dir, input, prefix);
      Ok(PathJoin(dir, OutputFileName(input, prefix)))
  }

  /** The .pkl and .grp paths of create_community_file: the output path up to its last '.'
      (the whole path when it has none, wherever the '.' stands in it), then the suffix. */
  function SwapExtension(path: string, suffix: string): (r: string)
    ensures EndsWith(r, suffix)
    ensures var stem := r[..|r| - |suffix|];
            && stem <= path
            && ('.' !in path ==> stem == path)
            && ('.' in path ==> |stem| < |path| && path[|stem|] == '.' && '.' !in path[|stem| + 1..])
  {
    var r := BeforeLast(path, '.') + suffix;
    assert r[..|r| - |suffix|] == BeforeLast(path, '.');
    r
  }

  /** The snapshot and the grouped file share their stem and differ only in the suffix. */
  lemma CommunityFilesPaired(output: string)
    ensures var pkl, grp := SwapExtension(output, ".pkl"), SwapExtension(output, ".grp");
            pkl[..|pkl| - 4] == grp[..|grp| - 4] && pkl != grp
  {
    var pkl, grp := SwapExtension(output, ".pkl"), SwapExtension(output, ".grp");
    assert pkl[|pkl| - 2] == 'k' && grp[|grp| - 2] == 'r';
  }

  /** One line of the .grp file: a cluster and the nodes assigned to it. */
  datatype Group = Group(cluster: int, nodes: seq<int>)

  /** Appending a node to its cluster's list, creating the list at its place in ascending
      cluster order when the cluster is new. */
  function AddNode(groups: seq<Group>, cluster: int, node: int): (r: seq<Group>)
    ensures |r| > 0
  {
    if groups == [] then [Group(cluster, [node])]
    else if groups[0].cluster == cluster then [Group(cluster, groups[0].nodes + [node])] + groups[1..]
    else if cluster < groups[0].cluster then [Group(cluster, [node])] + groups
    else [groups[0]] + AddNode(groups[1..], cluster, node)
  }

  /** groupby('cluster')['node'].apply(list) over the (node, cluster) items of the mapping, taken
      in the mapping's iteration order. */
  function Grouped(items: seq<(int, int)>): seq<Group> {
    if items == [] then []
    else
      var last := items[|items| - 1];
      AddNode(Grouped(items[..|items| - 1]), last.1, last.0)
  }

  predicate Ascending(groups: seq<Group>) {
    forall i, j :: 0 <= i < j < |groups| ==> groups[i].cluster < groups[j].cluster
  }

  function ClusterSet(groups: seq<Group>): set<int> {
    if groups == [] then {} else {groups[0].cluster} + ClusterSet(groups[1..])
  }

  lemma {:induction false} ClusterSetIndex(groups: seq<Group>, x: int)
    ensures x in ClusterSet(groups) <==> exists i :: 0 <= i < |groups| && groups[i].cluster == x
  {
    if groups != [] {
      ClusterSetIndex(groups[1..], x);
      if exists i :: 0 <= i < |groups| && groups[i].cluster == x {
        var i :| 0 <= i < |groups| && groups[i].cluster == x;
        if i > 0 {
          assert groups[1..][i - 1].cluster == x;
        }
      }
    }
  }

  /** In ascending order every later entry's cluster exceeds the first one's. */
  lemma AscendingTail(groups: seq<Group>, x: int)
    requires Ascending(groups) && groups != []
    requires x in ClusterSet(groups[1..])
    ensures groups[0].cluster < x
  {
    ClusterSetIndex(groups[1..], x);
    var i :| 0 <= i < |groups[1..]| && groups[1..][i].cluster == x;
    assert groups[i + 1].cluster == x;
  }

  /** The member list of a cluster, or [] when the cluster has no entry. */
  function GroupOf(groups: seq<Group>, cluster: int): seq<int> {
    if groups == [] then []
    else if groups[0].cluster == cluster then groups[0].nodes
    else GroupOf(groups[1..], cluster)
  }

  /** The clusters of the mapping. */
  function Clusters(items: seq<(int, int)>): set<int> {
    set i | 0 <= i < |items| :: items[i].1
  }

  /** The nodes of a cluster, in the mapping's iteration order. */
  function Members(items: seq<(int, int)>, cluster: int): seq<int> {
    if items == [] then []
    else
      var last := items[|items| - 1];
      Members(items[..|items| - 1], cluster) + (if last.1 == cluster then [last.0] else [])
  }

  lemma {:induction false} AddNodeSpec(groups: seq<Group>, cluster: int, node: int)
    requires Ascending(groups)
    ensures Ascending(AddNode(groups, cluster, node))
    ensures ClusterSet(AddNode(groups, cluster, node)) == ClusterSet(groups) + {cluster}
    ensures forall c :: GroupOf(AddNode(groups, cluster, node), c)
                        == GroupOf(groups, c) + (if c == cluster then [node] else [])
    decreases |groups|, 1
  {
    var r := AddNode(groups, cluster, node);
    if groups == [] {
    } else if groups[0].cluster == cluster {
      assert r[1..] == groups[1..];
      assert forall i :: 0 <= i < |r| ==> r[i].cluster == groups[i].cluster;
    } else if cluster < groups[0].cluster {
      assert r[1..] == groups;
      forall c ensures GroupOf(r, c) == GroupOf(groups, c) + (if c == cluster then [node] else []) {
        if c == cluster {
          GroupOfAbsent(groups, c);
        }
      }
    } else {
      AddNodeLater(groups, cluster, node);
    }
  }

  lemma {:induction false} AddNodeLater(groups: seq<Group>, cluster: int, node: int)
    requires Ascending(groups) && groups != [] && groups[0].cluster < cluster
    ensures Ascending(AddNode(groups, cluster, node))
    ensures ClusterSet(AddNode(groups, cluster, node)) == ClusterSet(groups) + {cluster}
    ensures forall c :: GroupOf(AddNode(groups, cluster, node), c)
                        == GroupOf(groups, c) + (if c == cluster then [node] else [])
    decreases |groups|, 0
  {
    var r := AddNode(groups, cluster, node);
    var rest := AddNode(groups[1..], cluster, node);
    AddNodeSpec(groups[1..], cluster, node);
    assert r == [groups[0]] + rest;
    assert r[1..] == rest;
    forall i, j | 0 <= i < j < |r| ensures r[i].cluster < r[j].cluster {
      if i == 0 {
        assert r[j] == rest[j - 1];
        ClusterSetIndex(rest, r[j].cluster);
        if r[j].cluster != cluster {
          AscendingTail(groups, r[j].cluster);
        }
      }
    }
  }

  /** A cluster smaller than the first entry's has no entry. */
  lemma {:induction false} GroupOfAbsent(groups: seq<Group>, c: int)
    requires Ascending(groups)
    requires groups != [] ==> c < groups[0].cluster
    ensures GroupOf(groups, c) == []
  {
    if groups != [] {
      GroupOfAbsent(groups[1..], c);
    }
  }

  /** The entry at position i holds the member list of its cluster. */
  lemma {:induction false} GroupOfAt(groups: seq<Group>, i: nat)
    requires Ascending(groups)
    requires i < |groups|
    ensures GroupOf(groups, groups[i].cluster) == groups[i].nodes
  {
    if i > 0 {
      GroupOfAt(groups[1..], i - 1);
    }
  }

  /** The grouping has one entry per distinct cluster, in ascending cluster order, and the entry
      of a cluster lists that cluster's nodes in the mapping's iteration order. */
  lemma {:induction false} GroupedSpec(items: seq<(int, int)>)
    ensures Ascending(Grouped(items))
    ensures ClusterSet(Grouped(items)) == Clusters(items)
    ensures forall i :: 0 <= i < |Grouped(items)| ==> Grouped(items)[i].nodes == Members(items, Grouped(items)[i].cluster)
  {
    var g := Grouped(items);
    if items != [] {
      var init := items[..|items| - 1];
      var last := items[|items| - 1];
      GroupedSpec(init);
      AddNodeSpec(Grouped(init), last.1, last.0);
      assert Clusters(items) == Clusters(init) + {last.1} by {
        forall x | x in Clusters(items) ensures x in Clusters(init) + {last.1} {
          var k :| 0 <= k < |items| && items[k].1 == x;
          if k < |items| - 1 {
            assert init[k] == items[k];
          }
        }
        forall x | x in Clusters(init) ensures x in Clusters(items) {
          var k :| 0 <= k < |init| && init[k].1 == x;
          assert items[k] == init[k];
        }
      }
      forall i | 0 <= i < |g| ensures g[i].nodes == Members(items, g[i].cluster) {
        GroupOfAt(g, i);
        var c := g[i].cluster;
        ClusterSetIndex(Grouped(init), c);
        if c in ClusterSet(Grouped(init)) {
          var j :| 0 <= j < |Grouped(init)| && Grouped(init)[j].cluster == c;
          GroupOfAt(Grouped(init), j);
        } else {
          GroupOfNone(Grouped(init), c);
          MembersNone(init, c);
        }
      }
    }
  }

  lemma {:induction false} GroupOfNone(groups: seq<Group>, c: int)
    requires c !in ClusterSet(groups)
    ensures GroupOf(groups, c) == []
  {
    if groups != [] {
      assert groups[0] in groups;
      assert ClusterSet(groups[1..]) <= ClusterSet(groups) by {
        assert forall g :: g in groups[1..] ==> g in groups;
      }
      GroupOfNone(groups[1..], c);
    }
  }

  lemma {:induction false} MembersNone(items: seq<(int, int)>, c: int)
    requires c !in Clusters(items)
    ensures Members(items, c) == []
  {
    if items != [] {
      var init := items[..|items| - 1];
      assert Clusters(init) <= Clusters(items) by {
        forall x | x in Clusters(init) ensures x in Clusters(items) {
          var k :| 0 <= k < |init| && init[k].1 == x;
          assert items[k] == init[k];
        }
      }
      MembersNone(init, c);
      assert items[|items| - 1].1 in Clusters(items);
    }
  }

  /** A node is listed under a cluster exactly when the mapping assigns it that cluster. */
  lemma {:induction false} MembersExactly(items: seq<(int, int)>, c: int, n: int)
    ensures n in Members(items, c) <==> exists k :: 0 <= k < |items| && items[k] == (n, c)
  {
    if items != [] {
      var init := items[..|items| - 1];
      MembersExactly(init, c, n);
      if exists k :: 0 <= k < |items| && items[k] == (n, c) {
        var k :| 0 <= k < |items| && items[k] == (n, c);
        if k < |items| - 1 {
          assert init[k] == items[k];
        }
      }
      if exists k :: 0 <= k < |init| && init[k] == (n, c) {
        var k :| 0 <= k < |init| && init[k] == (n, c);
        assert items[k] == init[k];
      }
    }
  }

  /** With the nodes of the mapping distinct (dictionary keys), every node appears in the entry of
      its own cluster and in no other entry. */
  lemma NodeInExactlyOneGroup(items: seq<(int, int)>, k: nat)
    requires forall a, b :: 0 <= a < b < |items| ==> items[a].0 != items[b].0
    requires k < |items|
    ensures exists i :: 0 <= i < |Grouped(items)| && Grouped(items)[i].cluster == items[k].1
    ensures forall i :: 0 <= i < |Grouped(items)| ==>
              (items[k].0 in Grouped(items)[i].nodes <==> Grouped(items)[i].cluster == items[k].1)
  {
    var g := Grouped(items);
    GroupedSpec(items);
    assert items[k].1 in Clusters(items);
    assert items[k].1 in ClusterSet(g);
    ClusterSetIndex(g, items[k].1);
    forall i | 0 <= i < |g| ensures items[k].0 in g[i].nodes <==> g[i].cluster == items[k].1 {
      MembersExactly(items, g[i].cluster, items[k].0);
    }
  }

  /** create_community_file: the .pkl and .grp paths next to the output path, and the grouping of
      the node -> cluster items into per-cluster lists. */
  method CreateCommunityFile(items: seq<(int, int)>, outputFile: string)
    returns (pickledFile: string, communityFile: string, groups: seq<Group>)
    ensures pickledFile == SwapExtension(outputFile, ".pkl")
    ensures communityFile == SwapExtension(outputFile, ".grp")
    ensures groups == Grouped(items)
    ensures Ascending(groups) && ClusterSet(groups) == Clusters(items)
    ensures forall i :: 0 <= i < |groups| ==> groups[i].nodes == Members(items, groups[i].cluster)
  {
    pickledFile := SwapExtension(outputFile, ".pkl");
    communityFile := SwapExtension(outputFile, ".grp");
    groups := [];
    for i := 0 to |items|
      invariant groups == Grouped(items[..i])
    {
      assert items[..i + 1][..i] == items[..i];
      groups := AddNode(groups, items[i].1, items[i].0);
    }
    assert items[..|items|] == items;
    GroupedSpec(items);
  }
}
