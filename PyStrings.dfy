/** The Python `str` operations and POSIX `os.path` functions that the pipeline relies on,
    written out with the facts about them that the rest of the model uses. */
module PyStrings {

  /** s.startswith(prefix) */
  predicate StartsWith(s: string, prefix: string) {
    prefix <= s
  }

  /** s.endswith(suffix) */
  predicate EndsWith(s: string, suffix: string) {
    |suffix| <= |s| && s[|s| - |suffix|..] == suffix
  }

  /** s.count(c) for a one-character string c. */
  function Count(s: string, c: char): (n: nat)
    ensures n <= |s|
    ensures n == 0 <==> c !in s
  {
    if s == [] then 0
    else
      assert c in s <==> s[0] == c || c in s[1..];
      (if s[0] == c then 1 else 0) + Count(s[1..], c)
  }

  /** s.split(c) for a one-character separator c: the pieces between the occurrences of c. */
  function Split(s: string, c: char): (parts: seq<string>)
    ensures |parts| == Count(s, c) + 1
    ensures forall i :: 0 <= i < |parts| ==> c !in parts[i]
    ensures parts[0] <= s && (|parts[0]| < |s| ==> s[|parts[0]|] == c)
  {
    if s == [] then [[]]
    else
      var rest := Split(s[1..], c);
      if s[0] == c then [[]] + rest
      else
        assert c !in [s[0]] + rest[0];
        [[s[0]] + rest[0]] + rest[1..]
  }

  /** sep.join(parts) */
  function Join(parts: seq<string>, sep: string): string {
    if parts == [] then []
    else if |parts| == 1 then parts[0]
    else parts[0] + sep + Join(parts[1..], sep)
  }

  /** Joining the pieces of a split with the separator gives back the string. */
  lemma {:induction false} SplitJoin(s: string, c: char)
    ensures Join(Split(s, c), [c]) == s
  {
    if s != [] {
      SplitJoin(s[1..], c);
      var rest := Split(s[1..], c);
      if s[0] != c && |rest| > 1 {
        assert Join(rest, [c]) == rest[0] + [c] + Join(rest[1..], [c]);
      }
    }
  }

  /** A string without the separator splits into itself alone. */
  lemma {:induction false} SplitFree(a: string, c: char)
    requires c !in a
    ensures Split(a, c) == [a]
  {
    if a != [] {
      assert c !in a[1..];
      SplitFree(a[1..], c);
      assert [a[0]] + a[1..] == a;
    }
  }

  /** Splitting at the first separator: the piece before it, then the split of the rest. */
  lemma {:induction false} SplitAt(a: string, b: string, c: char)
    requires c !in a
    ensures Split(a + [c] + b, c) == [a] + Split(b, c)
  {
    if a == [] {
      assert a + [c] + b == [c] + b;
      assert ([c] + b)[1..] == b;
    } else {
      assert (a + [c] + b)[1..] == a[1..] + [c] + b;
      assert c !in a[1..];
      SplitAt(a[1..], b, c);
      assert [a[0]] + a[1..] == a;
    }
  }

  /** Splitting a join of separator-free pieces gives the pieces back. */
  lemma {:induction false} JoinSplit(parts: seq<string>, c: char)
    requires |parts| >= 1
    requires forall i :: 0 <= i < |parts| ==> c !in parts[i]
    ensures Split(Join(parts, [c]), c) == parts
  {
    if |parts| == 1 {
      SplitFree(parts[0], c);
    } else {
      JoinSplit(parts[1..], c);
      SplitAt(parts[0], Join(parts[1..], [c]), c);
      assert [parts[0]] + parts[1..] == parts;
    }
  }

  /** The text up to (not including) the first '\n': s.split('\n')[0]. */
  function FirstLine(s: string): (line: string)
    ensures line <= s && '\n' !in line
  {
    Split(s, '\n')[0]
  }

  /** ''.join(islice(f, n)): the first n lines of a text, each with its terminating '\n'; the
      text is taken after universal-newline translation, so '\n' is the only line end. */
  function HeadLines(s: string, n: nat): (head: string)
    ensures head <= s
  {
    if n == 0 || s == [] then []
    else if s[0] == '\n' then [s[0]] + HeadLines(s[1..], n - 1)
    else [s[0]] + HeadLines(s[1..], n)
  }

  /** A sample of at least one line has the same first line as the whole text. */
  lemma {:induction false} FirstLineOfHead(s: string, n: nat)
    requires n >= 1
    ensures FirstLine(HeadLines(s, n)) == FirstLine(s)
  {
    if s != [] && s[0] != '\n' {
      FirstLineOfHead(s[1..], n);
      var h := HeadLines(s, n);
      assert h[1..] == HeadLines(s[1..], n);
    }
  }

  /** s.rfind(c): the index of the last occurrence of c in s, or -1. */
  function RFind(s: string, c: char): (i: int)
    ensures -1 <= i < |s|
    ensures i >= 0 ==> s[i] == c
    ensures forall j :: i < j < |s| ==> s[j] != c
  {
    if s == [] then -1
    else if s[|s| - 1] == c then |s| - 1
    else RFind(s[..|s| - 1], c)
  }

  lemma RFindUnique(s: string, c: char, i: int)
    requires -1 <= i < |s|
    requires i >= 0 ==> s[i] == c
    requires forall j :: i < j < |s| ==> s[j] != c
    ensures RFind(s, c) == i
  {
  }

  /** The last occurrence in a concatenation lies in the right part if the right part has one. */
  lemma RFindConcat(a: string, b: string, c: char)
    ensures RFind(a + b, c) == if c in b then |a| + RFind(b, c) else RFind(a, c)
  {
    var i := if c in b then |a| + RFind(b, c) else RFind(a, c);
    if c in b {
      assert b[RFind(b, c)] == c;
    } else {
      forall j | |a| <= j < |a + b| ensures (a + b)[j] != c {
        assert (a + b)[j] == b[j - |a|];
      }
    }
    RFindUnique(a + b, c, i);
  }

  /** s.rsplit(c, 1)[0]: everything before the last c, or s itself when c does not occur. */
  function BeforeLast(s: string, c: char): (head: string)
    ensures head <= s
    ensures c !in s ==> head == s
    ensures c in s ==> |head| < |s| && s[|head|] == c && c !in s[|head| + 1..]
  {
    var i := RFind(s, c);
    if i < 0 then s else s[..i]
  }

  /** s.rstrip(c) for a one-character c. */
  function RStrip(s: string, c: char): (r: string)
    ensures r <= s
    ensures r == [] || r[|r| - 1] != c
    ensures forall i :: |r| <= i < |s| ==> s[i] == c
  {
    if s != [] && s[|s| - 1] == c then RStrip(s[..|s| - 1], c) else s
  }

  predicate AllSlashes(s: string) {
    forall i :: 0 <= i < |s| ==> s[i] == '/'
  }

  /** os.path.basename: the part after the last '/'. */
  function Basename(p: string): (b: string)
    ensures '/' !in b
    ensures EndsWith(p, b)
  {
    p[RFind(p, '/') + 1..]
  }

  /** os.path.dirname: the part before the last '/', with trailing slashes removed unless it
      consists of slashes only. */
  function Dirname(p: string): (d: string)
  {
    var head := p[..RFind(p, '/') + 1];
    if head != [] && !AllSlashes(head) then RStrip(head, '/') else head
  }

  /** The shapes os.path.dirname can return: empty, all slashes, or not ending in '/'. */
  predicate DirShaped(d: string) {
    d == [] || d[|d| - 1] != '/' || AllSlashes(d)
  }

  lemma DirnameShaped(p: string)
    ensures DirShaped(Dirname(p))
  {
  }

  /** os.path.join(a, b) */
  function PathJoin(a: string, b: string): string {
    if StartsWith(b, "/") then b
    else if a == [] || EndsWith(a, "/") then a + b
    else a + "/" + b
  }

  /** Joining a directory with a plain file name and splitting the result again gives back
      the directory and the name. */
  lemma DirnameBasenameOfJoin(d: string, name: string)
    requires DirShaped(d)
    requires '/' !in name
    ensures Dirname(PathJoin(d, name)) == d
    ensures Basename(PathJoin(d, name)) == name
  {
    var p := PathJoin(d, name);
    assert !StartsWith(name, "/");
    if d == [] {
      assert p == name;
      assert RFind(p, '/') == -1;
    } else if EndsWith(d, "/") {
      assert AllSlashes(d);
      assert p == d + name;
      RFindConcat(d, name, '/');
      assert p[..|d|] == d;
    } else {
      assert d[|d| - 1] != '/';
      assert p == d + ("/" + name);
      RFindConcat(d, "/" + name, '/');
      assert RFind("/" + name, '/') == 0;
      var head := p[..|d| + 1];
      assert head == d + "/";
      assert head[|d| - 1] != '/';
      assert RStrip(head, '/') == RStrip(d, '/');
    }
  }

  predicate HasNonDot(s: string) {
    exists i :: 0 <= i < |s| && s[i] != '.'
  }

  /** os.path.splitext: (root, ext) with root + ext == p, where ext starts at the last '.' of
      the last path component, unless only dots precede that '.' in the component. */
  function SplitExt(p: string): (r: (string, string))
    ensures r.0 + r.1 == p
    ensures r.1 == [] || (r.1[0] == '.' && '.' !in r.1[1..] && '/' !in r.1)
  {
    var sep := RFind(p, '/');
    var dot := RFind(p, '.');
    if dot > sep && HasNonDot(p[sep + 1..dot]) then
      ExtensionShape(p, sep, dot);
      (p[..dot], p[dot..])
    else (p, [])
  }

  lemma ExtensionShape(p: string, sep: int, dot: int)
    requires sep == RFind(p, '/') && dot == RFind(p, '.') && dot > sep
    ensures p[dot..][0] == '.' && '.' !in p[dot..][1..] && '/' !in p[dot..]
  {
    var ext := p[dot..];
    assert forall j :: 0 <= j < |ext| ==> ext[j] == p[dot + j];
  }

  /** Inserting a tag without '.' and '/' between root and extension of a file name keeps the
      extension: the new name splits into (root + tag, ext). */
  lemma SplitExtInsert(b: string, tag: string)
    requires '/' !in b && '/' !in tag && '.' !in tag
    ensures SplitExt(SplitExt(b).0 + tag + SplitExt(b).1) == (SplitExt(b).0 + tag, SplitExt(b).1)
  {
    if SplitExt(b).1 == [] {
      SplitExtInsertNoExt(b, tag);
    } else {
      SplitExtInsertExt(b, tag);
    }
  }

  lemma SplitExtInsertNoExt(b: string, tag: string)
    requires '/' !in b && '/' !in tag && '.' !in tag
    requires SplitExt(b).1 == []
    ensures SplitExt(b + tag) == (b + tag, [])
  {
    var p := b + tag;
    assert '/' !in p;
    assert RFind(b, '/') == -1 && RFind(p, '/') == -1;
    RFindConcat(b, tag, '.');
    var dot := RFind(b, '.');
    if dot >= 0 {
      assert p[..dot] == b[..dot];
    }
  }

  lemma SplitExtInsertExt(b: string, tag: string)
    requires '/' !in b && '/' !in tag && '.' !in tag
    requires SplitExt(b).1 != []
    ensures SplitExt(SplitExt(b).0 + tag + SplitExt(b).1) == (SplitExt(b).0 + tag, SplitExt(b).1)
  {
    var (root, ext) := SplitExt(b);
    var dot := |root|;
    assert RFind(b, '/') == -1;
    assert RFind(b, '.') == dot && HasNonDot(b[..dot]);
    assert root == b[..dot] && ext == b[dot..];
    var p := root + tag + ext;
    assert '/' !in p;
    assert RFind(p, '/') == -1;
    RFindConcat(root + tag, ext, '.');
    assert RFind(ext, '.') == 0;
    var k :| 0 <= k < dot && b[..dot][k] != '.';
    assert p[..|root + tag|] == root + tag;
    assert p[..|root + tag|][k] != '.';
    assert p[|root + tag|..] == ext;
  }
}
