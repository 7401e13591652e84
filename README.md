# block_processor, modelled in Dafny

block_processor is a small pipeline around community detection on edge lists. It checks that
an input file looks like an edge list. It can cut chosen columns out of a raw file with `awk`
and relabel node names with dense integer ids. It hands the graph to a detection library
(SNAP CNM, networkx fast greedy, Louvain, Infomap) and turns the communities the library
returns into a node → community dictionary. Finally it writes that dictionary grouped by
community.

This project models the decision and bookkeeping logic of that pipeline. It covers the sanity
checks and their status codes, the output file names, the grouping of a node → cluster map, the
loading, cleaning and relabelling of an edge list, the `awk` command builder, and the numbering
of communities. Library answers (the csv sniffer, the pandas reader, the detection algorithms)
and file-system facts are parameters.

Modules, one per source file, plus two helpers:

- `Results` holds the `Option` and `Result` datatypes. A `sys.exit(1)` of the source is an
  `Err` value.
- `PyStrings` gives the Python `str` methods and POSIX `os.path` functions the source relies
  on: `split`, `join`, `rsplit('.', 1)[0]`, `basename`, `dirname`, `splitext`, `join`.
- `FileOperations` models `block_processor/file_operations.py`.
- `TextProcessor` models `block_processor/text_processor.py`. The frame whose columns
  `numeric_mapping` overwrites in place is the class `Frame`.
- `TextFilter` models `blockprocessor/text_filter.py`. `create_command`'s counting loop is a
  method proved equal to a join-based definition of the command.
- `Communities` models the shared nested loop of `block_processor/na_snap_cnm.py` (ids from 0)
  and `block_processor/na_fast_greedy.py` (ids from 1). A method is proved equal to a
  recursive definition, and properties of the dictionary are proved about that definition.

`check_delimiter` compares `None` with the detected character and returns 2 (mismatch),
although the scripts elsewhere treat an unset delimiter as whitespace
(`block_processor/graph_composer.py:45-46`). `FileOperations.CheckDelimiter` returns 2.

## Model

| member | source | states |
|---|---|---|
| FileOperations.FileSniffer | block_processor/file_operations.py:27-61 | A failed sniff is an error (the source leaves its locals unbound). Otherwise the column count is the number of delimiter-separated fields of the first sample line. One row is skipped and the headers are those fields (re-joining them gives the line) exactly when a header was detected. |
| FileOperations.CheckFileHeader | block_processor/file_operations.py:65-92 | The result is 0 or 1. It is 0 exactly when headers are present, non-empty, and the first field does not start with `#`. |
| FileOperations.CheckDelimiter | block_processor/file_operations.py:96-120 | The result is 1 or 2. It is 1 exactly when the provided delimiter is the detected character. An unset provided delimiter gives 2. |
| FileOperations.IsWeighted | block_processor/file_operations.py:162-178 | `yes/Yes/Y/y` mean weighted and `no/No/N/n` unweighted. Any other token is an error. |
| FileOperations.CheckColumns | block_processor/file_operations.py:124-158 | An unknown token is an error. Otherwise the result is 1 exactly for three columns with a yes-token or two with a no-token, and 0 otherwise. |
| FileOperations.GenerateSanityStatus | block_processor/file_operations.py:182-227 | The accumulator ends at 0 or 1. It ends at 0 exactly when the header or column status is 0. The delimiter status (1 or 2) never changes it. |
| FileOperations.HeaderStatusOfFile | block_processor/file_operations.py:51-58 | Sniffing then checking the header gives 1 exactly when no header was detected, or the first line starts with `#` (with `#` not the delimiter). |
| FileOperations.SanityCheck | block_processor/file_operations.py:231-255 | A failed sniff or unknown token is an error. Otherwise the status is 1 exactly when the header is commented or absent and the first line's field count is 3 for weighted or 2 for unweighted. The provided delimiter has no effect. |
| FileOperations.OutputDirectory | block_processor/file_operations.py:275-290 | The result is the input's `dirname` when that is a non-empty path naming a directory, and an error otherwise: `os.path.isdir('')` is False, so a bare file name has no output directory. |
| FileOperations.OutputFileName | block_processor/file_operations.py:301-307 | Base name plus extension from `splitext` recombine, so the name is prefix + `_` + the input's base name, extension kept. |
| FileOperations.OutputPathSpec | block_processor/file_operations.py:301-312 | The joined path ends with prefix + `_` + base name. For a prefix without `/`, its `dirname` is the input's directory and its `basename` is that name. |
| FileOperations.GenerateOutputFilename | block_processor/file_operations.py:294-315 | A missing or empty directory is an error. Otherwise the path is the input's directory joined with prefix + `_` + the input's base name, so it ends with that name. For a `/`-free prefix it lies in the input's directory with exactly that file name. |
| FileOperations.SwapExtension | block_processor/file_operations.py:327-330 | The path ends with the suffix. What precedes the suffix is the whole path when it has no `.`. Otherwise it is the path up to its last `.`, wherever that `.` stands. |
| FileOperations.CommunityFilesPaired | block_processor/file_operations.py:327-330 | The `.pkl` and `.grp` paths share their stem and are different files. |
| FileOperations.AddNodeSpec | block_processor/file_operations.py:361-364 | Adding one (node, cluster) pair keeps clusters ascending and adds the cluster to the cluster set. It appends the node to that cluster's list and leaves every other list unchanged. |
| FileOperations.GroupedSpec | block_processor/file_operations.py:361-364 | The grouping has one entry per distinct cluster of the mapping, in ascending cluster order. Each entry lists its cluster's nodes in the mapping's iteration order. |
| FileOperations.MembersExactly | block_processor/file_operations.py:361-364 | A node is in a cluster's member list exactly when the mapping holds that (node, cluster) pair. |
| FileOperations.NodeInExactlyOneGroup | block_processor/file_operations.py:361-364 | With distinct nodes (dictionary keys), every node appears in the entry of its own cluster and in no other. |
| FileOperations.CreateCommunityFile | block_processor/file_operations.py:319-372 | The `.pkl`/`.grp` paths are the path with its extension swapped. The groups built one item at a time equal the grouping, with all of its properties. |
| TextProcessor.SanityCheck | block_processor/text_processor.py:147-177 | `yes/Yes/Y/y` give `[source, target, weight]` and `no/No/N/n` give `[source, target]`. The errors come in this order: any other token is a token error; then a missing input file is a missing-file error; then an unreadable one is an unreadable-file error. |
| TextProcessor.HeadersAgreeWithIsWeighted | block_processor/text_processor.py:155-161 | The tokens accepted are those `is_weighted` accepts. The number of column names is the column count `check_columns` expects. |
| TextProcessor.CleanConvertWeight | block_processor/text_processor.py:93-103 | The weight is the blank- and newline-free field parsed as by `int()`. A parse failure is an error, and so is x ≤ -1, where `log(1 + x)` is undefined. |
| TextProcessor.ParseShow | block_processor/text_processor.py:101 | `int()` reads back the decimal rendering of every integer. |
| TextProcessor.WeightRoundTrip | block_processor/text_processor.py:100-102 | A rendered non-negative integer converts to itself. A negative one is refused. |
| TextProcessor.BlankIgnored | block_processor/text_processor.py:100 | Inserting a blank or a newline anywhere in a weight field does not change the conversion. |
| TextProcessor.KeptIndices | block_processor/text_processor.py:132-136 | The surviving positions are strictly increasing. Each survives dropna (no NaN label; a converted weight is never NaN) and has both labels at least 34 long. Every such row is among them. |
| TextProcessor.LoadFile | block_processor/text_processor.py:107-143 | With three column names the weight converter runs on every row's weight text (a blank or missing field gives the empty text), and the load fails exactly when some row's weight is refused. Otherwise the result is the kept rows, in order, renumbered from 0. A weight is present exactly for three names and is the converted value. Every label is at least 34 long. |
| TextProcessor.BlankWeightAbortsLoad | block_processor/text_processor.py:100-101 | With three column names, a single row whose weight field is missing, empty or only blanks and newlines makes the whole load fail, even when that row would have been dropped. |
| TextProcessor.Unique | block_processor/text_processor.py:75 | `pd.unique` has no duplicates and holds exactly the values of its input. |
| TextProcessor.UniqueOrder | block_processor/text_processor.py:75 | Unique values come in order of first occurrence. |
| TextProcessor.ExtractNodes | block_processor/text_processor.py:65-89 | The keys are exactly the labels in the source and target columns. The ids are a bijection from those labels onto 0..n-1, where n is the number of distinct labels. Id i names the i-th distinct label. |
| TextProcessor.IdsFollowFirstOccurrence | block_processor/text_processor.py:75-86 | One label has a smaller id than another exactly when it first occurs earlier, with all sources read before all targets. |
| TextProcessor.Frame.constructor | block_processor/text_processor.py:140-143 | The frame holds the loaded rows' labels and weights column by column. |
| TextProcessor.Frame.NumericMapping | block_processor/text_processor.py:28-41 | The source and target columns are replaced in place by their images under the dictionary. A missing label becomes NaN. The weights and the row count are unchanged. |
| TextProcessor.Frame.IdRows | block_processor/text_processor.py:57 | A fully mapped frame yields its rows in order, each with its two ids and its weight. |
| TextProcessor.MappingComplete | block_processor/text_processor.py:222-227 | Mapping with the dictionary `extract_nodes` built from the same frame leaves no NaN. Each id is below the node count and leads back to the row's label. |
| TextProcessor.GetDirPath | block_processor/text_processor.py:181-202 | A missing or empty directory is an error. The output name is base + `_numeric` + extension from `splitext` of the base name, and `splitext` of it returns that base + `_numeric` and the same extension. |
| TextProcessor.CommandCenter | block_processor/text_processor.py:206-233 | The run fails exactly when the sanity check, the (non-empty) directory or the load fails. Otherwise it yields the input's directory and the `_numeric` name. Each loaded row is relabelled with ids that lead back to its labels, and the node count is the number of distinct labels. |
| TextFilter.SanityCheck | blockprocessor/text_filter.py:70-116 | A missing, then an unreadable input file, then absent column indexes, is an error. The columns are the indexes split on `,`: count(`,`) + 1 comma-free pieces whose `,`-join is the argument. An existing output file is removed. |
| TextFilter.ColumnsRoundTrip | blockprocessor/text_filter.py:95 | A list of comma-free columns is recovered by splitting its `,`-join. |
| TextFilter.CreateCommand | blockprocessor/text_filter.py:20-49 | The counting loop builds exactly `awk` + clause + ` '{print ` + segment + `}' ` + input + ` > ` + output. The segment is the `$`-prefixed columns joined by `","`. The clause is empty for no separator and ` -F "<sep>"` otherwise. |
| TextFilter.SingleColumn | blockprocessor/text_filter.py:38-40 | A single column yields `$c` with no separator. |
| TextFilter.SegmentFields | blockprocessor/text_filter.py:32-40 | For `$`-free columns the print body holds one `$` per column. Cutting it at the `$` signs returns the columns in input order, each but the last followed by `","` and none after the last. |
| TextFilter.CommandCenter | blockprocessor/text_filter.py:120-137 | The run fails exactly as the sanity check does. Otherwise the command is built from the split column list. |
| Communities.Tag | block_processor/na_snap_cnm.py:63-64 | Setting every member of one community adds exactly those keys. They get that id, and every other key keeps its value. |
| Communities.LastContaining | block_processor/na_snap_cnm.py:62-64 | This is the position of a community that contains the node, with no later community containing it. |
| Communities.NumberedSpec | block_processor/na_snap_cnm.py:60-65 | The keys are exactly the union of the members. Each node's id is the base plus the position of the last community containing it, so the last one wins. |
| Communities.NumberedRange | block_processor/na_snap_cnm.py:58-65 | Every id lies in [base, base + number of communities). |
| Communities.EmptyCommunity | block_processor/na_fast_greedy.py:60-64 | An empty community adds no key but consumes an id: the next community is numbered one higher. |
| Communities.MemberOrderIrrelevant | block_processor/na_fast_greedy.py:61-63 | The dictionary depends only on each community's member set, not on the order members are listed in. |
| Communities.DistinctIds | block_processor/na_fast_greedy.py:59-67 | There are at most as many distinct ids as communities. |
| Communities.SharedNodeLosesId | block_processor/na_fast_greedy.py:63-67 | A node shared by two communities leaves fewer distinct ids than communities, so the reported count can exceed the ids in use. |
| Communities.NumberCommunities | block_processor/na_snap_cnm.py:60-65 | The nested loop with its id counter builds exactly the recursively defined numbering. |
| Communities.CnmFindCommunities | block_processor/na_snap_cnm.py:49-68 | The total is the length of the community vector, numbering starts at 0 and the modularity is passed through. Keys are the members, the last community wins, and ids lie in [0, total). |
| Communities.FastGreedyCommunities | block_processor/na_fast_greedy.py:44-67 | Numbering starts at 1. Keys are the members, the last community wins, and ids lie in [1, list length]. The reported count is the list length. |

## Left out

- The csv sniffing heuristics (`csv.Sniffer`), `pd.read_csv`, `pickle.dump`, `to_csv` and the `subprocess` call that runs the `awk` command are left out. So are `os.access`, `os.path.isdir` and `os.remove`. The sniffer's answer, the reader's rows and the file-system facts are parameters.
- The reader's own decisions are left out: NA markers, `skipinitialspace`, type inference of labels, and rows with more fields than names. `TextProcessor.RawRow` holds each field's text and `None` for a blank or missing one. A label is its `str()` text. With a weight column, pandas' C reader hands the converter the empty text for a blank or missing field and the load fails; another engine could behave differently.
- Line ends: the file is read in text mode, which turns `\r\n` and `\r` into `\n`. `FileOperations.FileSniffer` and `PyStrings.HeadLines` take the text after that translation.
- `TextProcessor.CleanConvertWeight`: returns the parsed integer x, not the float `round(math.log(1 + x), 6)`. Floating point is not modelled; the domain error of the logarithm is.
- `TextProcessor.ParseInt`: accepts ASCII decimal digits only, while Python's `int()` also accepts other Unicode decimal digits.
- `run_cnm` has no logic of its own. It forwards to `snap.CommunityCNM`, whose filled vector and modularity are parameters of `Communities.CnmFindCommunities`.
- The detection libraries and graph construction are left out, because they are foreign calls. This covers SNAP, networkx, Louvain, Infomap, `block_processor/graph_composer.py`, `block_processor/na_louvain.py`, `block_processor/na_infomap.py` and `block_processor/na_cnm.py`.
- Console output, argparse, timing, `initial_message`, and printing the counts are left out.
- The text layout of the `.grp` file (pandas list rendering) is left out. Only the grouping is modelled.
- Iteration orders the libraries choose are inputs: the node → cluster dictionary's item order, and the member order of each community. `Communities.MemberOrderIrrelevant` shows the community numbering does not depend on the latter.
- Under Python 3 the pickle is written to a file opened in text mode, which raises. The source only prints the error, and the model does not represent the pickle.
