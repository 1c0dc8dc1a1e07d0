/** The reader of `dotnet list package --outdated` output
    (`parse_outdated_output`): a line-by-line scan that remembers the project
    named by the most recent header and turns each marked data line into a
    package-update record. */
module Outdated {
  import opened PyText

  /** One outdated package of one project. */
  datatype PackageUpdate = PackageUpdate(project: string, name: string, currentVersion: string, latestVersion: string)

  /** The scan either yields its records, or stops at the index of a data line
      that has fewer than five tokens (Python raises `IndexError` there). */
  datatype ParseResult = Parsed(packages: seq<PackageUpdate>) | TooFewTokens(line: nat)

  const HeaderPrefix: string := "Project `"

  /** A header names the project whose packages follow. */
  predicate IsHeader(line: string) {
    StartsWith(line, HeaderPrefix)
  }

  /** A data line, once stripped, starts with the marker `>`; that is, its
      first non-whitespace character is `>` (lemma `DataLineTest`). */
  predicate IsDataLine(line: string) {
    FirstNonSpaceIs(line, '>')
  }

  /** The test the source applies, `line.strip().startswith(">")`, is `IsDataLine`. */
  lemma DataLineTest(line: string)
    ensures StartsWith(Strip(line), ">") <==> IsDataLine(line)
  {
    StripStartsWith(line, '>');
  }

  lemma HeaderSplit(line: string)
    requires IsHeader(line)
    ensures |Split(line, '`')| >= 2
    ensures Split(line, '`')[1] == line[9..][..Find(line[9..], '`')]
  {
    assert line[..9] == ['P', 'r', 'o', 'j', 'e', 'c', 't', ' ', '`'];
    forall k | 0 <= k < 8 ensures line[k] != '`' {
      assert line[k] == line[..9][k];
    }
    assert line[8] == line[..9][8];
    assert Find(line, '`') == 8;
    SplitSecond(line, '`');
  }

  /** What `line.split('`')[1].split(' ')[0]` is, for a header. */
  lemma HeaderSegment(line: string)
    requires IsHeader(line)
    ensures |Split(line, '`')| >= 2
    ensures var p := Split(Split(line, '`')[1], ' ')[0];
            |p| <= |line| - 9 && p == line[9..9 + |p|]
            && (forall k :: 0 <= k < |p| ==> p[k] != '`' && p[k] != ' ')
            && (9 + |p| < |line| ==> line[9 + |p|] == '`' || line[9 + |p|] == ' ')
  {
    HeaderSplit(line);
    var rest := line[9..];
    var segment := rest[..Find(rest, '`')];
    assert Split(line, '`')[1] == segment;
    var p := segment[..Find(segment, ' ')];
    assert Split(segment, ' ')[0] == p;
    PrefixOfPrefix(line, 9, Find(rest, '`'), Find(segment, ' '));
    forall k | 0 <= k < |p| ensures p[k] != '`' && p[k] != ' ' {
      assert p[k] == segment[k];
    }
    if |p| < |segment| {
      assert segment[|p|] == ' ';
    } else if |segment| < |rest| {
      assert rest[|p|] == '`';
    }
  }

  lemma PrefixOfPrefix(s: string, at: nat, n: nat, m: nat)
    requires at + n <= |s| && m <= n
    ensures s[at..][..n][..m] == s[at..at + m]
    ensures m < n ==> s[at..][..n][m] == s[at + m]
    ensures at + m < |s| ==> s[at..][m] == s[at + m]
  {
  }

  /** The project identifier of a header, `line.split('`')[1].split(' ')[0]`:
      it is always defined, and it is the longest run after the first backtick
      that contains neither a backtick nor a space. */
  function HeaderProject(line: string): (p: string)
    requires IsHeader(line)
    ensures |p| <= |line| - 9 && p == line[9..9 + |p|]
    ensures forall k :: 0 <= k < |p| ==> p[k] != '`' && p[k] != ' '
    ensures 9 + |p| < |line| ==> line[9 + |p|] == '`' || line[9 + |p|] == ' '
  {
    HeaderSplit(line);
    HeaderSegment(line);
    Split(Split(line, '`')[1], ' ')[0]
  }

  /** The project in force after a line has been read. */
  function NextProject(line: string, project: Option<string>): Option<string> {
    if IsHeader(line) then Some(HeaderProject(line)) else project
  }

  /** The project in force after reading `lines` from a state with `project`:
      that of the last header among them, or `project` when there is none. */
  function ProjectAfter(lines: seq<string>, project: Option<string>): Option<string>
    decreases |lines|
  {
    if lines == [] then project
    else NextProject(lines[|lines| - 1], ProjectAfter(lines[..|lines| - 1], project))
  }

  /** The record a data line stands for: whitespace tokens 1, 2 and 4. */
  function RecordOf(project: string, tokens: seq<string>): PackageUpdate
    requires |tokens| >= 5
  {
    PackageUpdate(project, tokens[1], tokens[2], tokens[4])
  }

  /** `ps` in front of the records of a successful result. */
  function Prefixed(ps: seq<PackageUpdate>, r: ParseResult): ParseResult {
    match r
    case Parsed(qs) => Parsed(ps + qs)
    case TooFewTokens(_) => r
  }

  /** Two parses one after the other: the second only matters when the first succeeds. */
  function Chain(first: ParseResult, second: ParseResult): ParseResult {
    match first
    case Parsed(ps) => Prefixed(ps, second)
    case TooFewTokens(_) => first
  }

  /** What reading one line does, given the project in force: a header sets
      the project; a data line under a non-empty project yields a record, or
      fails when it has fewer than five tokens; anything else is ignored. */
  datatype LineEffect = SetProject(project: string) | Emit(record: PackageUpdate) | Malformed | Ignore

  function Classify(line: string, project: Option<string>): LineEffect {
    if IsHeader(line) then SetProject(HeaderProject(line))
    else if Truthy(project) && IsDataLine(line) then
      var parts := SplitWs(line);
      if |parts| < 5 then Malformed else Emit(RecordOf(project.value, parts))
    else Ignore
  }

  /** Only headers change the project, and they change it to `NextProject`'s. */
  lemma ClassifyProject(line: string, project: Option<string>)
    ensures Classify(line, project).SetProject? <==> IsHeader(line)
    ensures Classify(line, project).SetProject? ==> NextProject(line, project) == Some(Classify(line, project).project)
    ensures !Classify(line, project).SetProject? ==> NextProject(line, project) == project
  {
  }

  /** The scan of `lines`, the first of which has index `at`, starting with
      `project` in force. */
  function ParseFrom(lines: seq<string>, project: Option<string>, at: nat): ParseResult
    decreases |lines|
  {
    if lines == [] then Parsed([])
    else
      match Classify(lines[0], project)
      case SetProject(p) => ParseFrom(lines[1..], Some(p), at + 1)
      case Emit(rec) => Prefixed([rec], ParseFrom(lines[1..], project, at + 1))
      case Malformed => TooFewTokens(at)
      case Ignore => ParseFrom(lines[1..], project, at + 1)
  }

  /** `parse_outdated_output`: the scan from the start, with no project yet. */
  function Parse(lines: seq<string>): ParseResult {
    ParseFrom(lines, None, 0)
  }

  /** The scan itself, as the source writes it: one pass that reassigns the
      current project and appends to the record list. */
  method ParseOutdatedOutput(lines: seq<string>) returns (r: ParseResult)
    ensures r == Parse(lines)
  {
    var packages: seq<PackageUpdate> := [];
    var project: Option<string> := None;
    var i := 0;
    while i < |lines|
      invariant i <= |lines|
      invariant Parse(lines) == Chain(Parsed(packages), ParseFrom(lines[i..], project, i))
    {
      var line := lines[i];
      assert lines[i..][0] == line && lines[i..][1..] == lines[i + 1..];
      DataLineTest(line);
      if StartsWith(line, HeaderPrefix) {
        project := Some(HeaderProject(line));
      } else if Truthy(project) && StartsWith(Strip(line), ">") {
        var parts := SplitWs(line);
        if |parts| < 5 {
          return TooFewTokens(i);
        }
        packages := packages + [PackageUpdate(project.value, parts[1], parts[2], parts[4])];
      }
      i := i + 1;
    }
    assert lines[i..] == [];
    assert packages + [] == packages;
    return Parsed(packages);
  }

  // ---------------------------------------------------------------------------
  // Properties of the scan

  lemma {:induction false} ProjectAfterCons(lines: seq<string>, project: Option<string>)
    requires lines != []
    ensures ProjectAfter(lines, project) == ProjectAfter(lines[1..], NextProject(lines[0], project))
    decreases |lines|
  {
    if |lines| > 1 {
      var init := lines[..|lines| - 1];
      assert init[1..] == lines[1..][..|lines[1..]| - 1];
      assert lines[1..][|lines[1..]| - 1] == lines[|lines| - 1];
      ProjectAfterCons(init, project);
    } else {
      assert lines[..0] == [] && lines[1..] == [];
    }
  }

  lemma PrefixedAssoc(ps: seq<PackageUpdate>, qs: seq<PackageUpdate>, r: ParseResult)
    ensures Prefixed(ps, Prefixed(qs, r)) == Prefixed(ps + qs, r)
  {
    if r.Parsed? {
      assert ps + (qs + r.packages) == (ps + qs) + r.packages;
    }
  }

  lemma PrefixedChain(ps: seq<PackageUpdate>, first: ParseResult, second: ParseResult)
    ensures Prefixed(ps, Chain(first, second)) == Chain(Prefixed(ps, first), second)
  {
    if first.Parsed? {
      PrefixedAssoc(ps, first.packages, second);
    }
  }

  /** Reading a first line and then the rest. */
  lemma ParseFromCons(x: string, rest: seq<string>, project: Option<string>, at: nat)
    ensures ParseFrom([x] + rest, project, at)
         == match Classify(x, project)
            case SetProject(p) => ParseFrom(rest, Some(p), at + 1)
            case Emit(rec) => Prefixed([rec], ParseFrom(rest, project, at + 1))
            case Malformed => TooFewTokens(at)
            case Ignore => ParseFrom(rest, project, at + 1)
  {
    assert ([x] + rest)[0] == x && ([x] + rest)[1..] == rest;
  }

  /** One step of `ParseAppend`: reading a first line `x` before `rest` and
      `b` splits as reading `x` before `rest` alone does, given that reading
      `rest` then `b` splits that way. */
  lemma ParseAppendStep(x: string, rest: seq<string>, b: seq<string>, project: Option<string>, at: nat)
    requires ParseFrom(rest + b, NextProject(x, project), at + 1)
          == Chain(ParseFrom(rest, NextProject(x, project), at + 1),
                   ParseFrom(b, ProjectAfter(rest, NextProject(x, project)), at + 1 + |rest|))
    ensures ParseFrom([x] + (rest + b), project, at)
         == Chain(ParseFrom([x] + rest, project, at), ParseFrom(b, ProjectAfter([x] + rest, project), at + 1 + |rest|))
  {
    ParseFromCons(x, rest, project, at);
    ParseFromCons(x, rest + b, project, at);
    ProjectAfterCons([x] + rest, project);
    assert ([x] + rest)[0] == x && ([x] + rest)[1..] == rest;
    ClassifyProject(x, project);
    var tail := ParseFrom(b, ProjectAfter(rest, NextProject(x, project)), at + 1 + |rest|);
    match Classify(x, project)
    case SetProject(p) =>
    case Emit(rec) =>
      PrefixedChain([rec], ParseFrom(rest, project, at + 1), tail);
    case Malformed =>
    case Ignore =>
  }

  /** The scan is compositional: reading `a` then `b` is reading `a`, then
      reading `b` with the project `a` left in force; records keep their order. */
  lemma {:induction false} ParseAppend(a: seq<string>, b: seq<string>, project: Option<string>, at: nat)
    ensures ParseFrom(a + b, project, at)
         == Chain(ParseFrom(a, project, at), ParseFrom(b, ProjectAfter(a, project), at + |a|))
    decreases |a|
  {
    if a == [] {
      assert a + b == b;
    } else {
      var x, rest := a[0], a[1..];
      assert a == [x] + rest;
      assert a + b == [x] + (rest + b);
      ParseAppend(rest, b, NextProject(x, project), at + 1);
      ParseAppendStep(x, rest, b, project, at);
    }
  }

  /** Without a project in force and without any header, nothing is produced
      and nothing fails: data lines, even malformed ones, are skipped. */
  lemma {:induction false} NoProjectNoRecords(lines: seq<string>, project: Option<string>, at: nat)
    requires !Truthy(project)
    requires forall k :: 0 <= k < |lines| ==> !IsHeader(lines[k])
    ensures ParseFrom(lines, project, at) == Parsed([])
    decreases |lines|
  {
    if lines != [] {
      NoProjectNoRecords(lines[1..], project, at + 1);
    }
  }

  // ---------------------------------------------------------------------------
  // A reference description, line by line, and its agreement with the scan

  /** Line `k` produces a record: it is not a header, it is a data line, and the
      most recent header before it named a non-empty project. */
  predicate Yields(lines: seq<string>, k: nat)
    requires k < |lines|
  {
    !IsHeader(lines[k]) && IsDataLine(lines[k]) && Truthy(ProjectAfter(lines[..k], None))
  }

  /** Every producing line among the first `n` has the five tokens it needs. */
  predicate WellFormedUpTo(lines: seq<string>, n: nat)
    requires n <= |lines|
  {
    forall k :: 0 <= k < n ==> Yields(lines, k) ==> |SplitWs(lines[k])| >= 5
  }

  /** The record of producing line `k`. */
  function RecordAt(lines: seq<string>, k: nat): PackageUpdate
    requires k < |lines| && Yields(lines, k) && |SplitWs(lines[k])| >= 5
  {
    RecordOf(ProjectAfter(lines[..k], None).value, SplitWs(lines[k]))
  }

  /** The records of the first `n` lines, one per producing line, in line order. */
  function Expected(lines: seq<string>, n: nat): seq<PackageUpdate>
    requires n <= |lines| && WellFormedUpTo(lines, n)
  {
    if n == 0 then []
    else Expected(lines, n - 1) + (if Yields(lines, n - 1) then [RecordAt(lines, n - 1)] else [])
  }

  lemma SingleLine(line: string, project: Option<string>, at: nat)
    ensures ParseFrom([line], project, at)
         == if !IsHeader(line) && Truthy(project) && IsDataLine(line) then
              (if |SplitWs(line)| < 5 then TooFewTokens(at) else Parsed([RecordOf(project.value, SplitWs(line))]))
            else Parsed([])
  {
    assert [line][1..] == [];
  }

  /** `ParsePrefix` for one more line. */
  lemma ParsePrefixStep(lines: seq<string>, m: nat)
    requires m < |lines|
    requires Parse(lines[..m]).Parsed? <==> WellFormedUpTo(lines, m)
    requires Parse(lines[..m]).Parsed? ==> Parse(lines[..m]).packages == Expected(lines, m)
    requires Parse(lines[..m]).TooFewTokens? ==>
               var k := Parse(lines[..m]).line;
               k < m && Yields(lines, k) && |SplitWs(lines[k])| < 5 && WellFormedUpTo(lines, k)
    ensures Parse(lines[..m + 1]).Parsed? <==> WellFormedUpTo(lines, m + 1)
    ensures Parse(lines[..m + 1]).Parsed? ==> Parse(lines[..m + 1]).packages == Expected(lines, m + 1)
    ensures Parse(lines[..m + 1]).TooFewTokens? ==>
              var k := Parse(lines[..m + 1]).line;
              k < m + 1 && Yields(lines, k) && |SplitWs(lines[k])| < 5 && WellFormedUpTo(lines, k)
  {
    var a := lines[..m];
    assert lines[..m + 1] == a + [lines[m]];
    assert |a| == m;
    ParseAppend(a, [lines[m]], None, 0);
    SingleLine(lines[m], ProjectAfter(a, None), m);
    if Parse(a).Parsed? {
      if Yields(lines, m) && |SplitWs(lines[m])| < 5 {
        assert Parse(lines[..m + 1]) == TooFewTokens(m);
      } else {
        assert WellFormedUpTo(lines, m + 1);
      }
    }
  }

  lemma {:induction false} ParsePrefix(lines: seq<string>, n: nat)
    requires n <= |lines|
    ensures Parse(lines[..n]).Parsed? <==> WellFormedUpTo(lines, n)
    ensures Parse(lines[..n]).Parsed? ==> Parse(lines[..n]).packages == Expected(lines, n)
    ensures Parse(lines[..n]).TooFewTokens? ==>
              var k := Parse(lines[..n]).line;
              k < n && Yields(lines, k) && |SplitWs(lines[k])| < 5 && WellFormedUpTo(lines, k)
  {
    if n == 0 {
      assert lines[..0] == [];
    } else {
      ParsePrefix(lines, n - 1);
      ParsePrefixStep(lines, n - 1);
    }
  }

  /** The scan agrees with the line-by-line description: it succeeds exactly
      when every producing line has five tokens, and then yields one record
      per producing line, in order, each tagged with the most recent header's
      project and holding tokens 1, 2 and 4; otherwise it stops at the first
      producing line that is too short. */
  lemma ParseMatchesReference(lines: seq<string>)
    ensures Parse(lines).Parsed? <==> WellFormedUpTo(lines, |lines|)
    ensures Parse(lines).Parsed? ==> Parse(lines).packages == Expected(lines, |lines|)
    ensures Parse(lines).TooFewTokens? ==>
              var k := Parse(lines).line;
              k < |lines| && Yields(lines, k) && |SplitWs(lines[k])| < 5 && WellFormedUpTo(lines, k)
  {
    ParsePrefix(lines, |lines|);
    assert lines[..|lines|] == lines;
  }

  /** Each record comes from a producing line, and carries the project of the
      most recent header before that line and tokens 1, 2 and 4 of it. */
  lemma {:induction false} ExpectedOrigin(lines: seq<string>, n: nat, j: nat)
    requires n <= |lines| && WellFormedUpTo(lines, n)
    requires j < |Expected(lines, n)|
    ensures exists k :: 0 <= k < n && Yields(lines, k) && |SplitWs(lines[k])| >= 5
                        && Expected(lines, n)[j] == RecordAt(lines, k)
  {
    var m := n - 1;
    if j < |Expected(lines, m)| {
      ExpectedOrigin(lines, m, j);
      var k :| 0 <= k < m && Yields(lines, k) && |SplitWs(lines[k])| >= 5
               && Expected(lines, m)[j] == RecordAt(lines, k);
      assert Expected(lines, n)[j] == Expected(lines, m)[j];
    } else {
      assert Expected(lines, n)[j] == RecordAt(lines, m);
    }
  }

  /** The number of data lines (that are not headers) among the first `n`. */
  function DataLines(lines: seq<string>, n: nat): nat
    requires n <= |lines|
  {
    if n == 0 then 0
    else DataLines(lines, n - 1) + (if !IsHeader(lines[n - 1]) && IsDataLine(lines[n - 1]) then 1 else 0)
  }

  /** There are never more records than data lines. */
  lemma {:induction false} ExpectedCount(lines: seq<string>, n: nat)
    requires n <= |lines| && WellFormedUpTo(lines, n)
    ensures |Expected(lines, n)| <= DataLines(lines, n)
  {
    if n > 0 {
      ExpectedCount(lines, n - 1);
    }
  }

  /** Without a header among the lines, the project in force is unchanged. */
  lemma {:induction false} NoHeaderNoProject(lines: seq<string>, project: Option<string>)
    requires forall k :: 0 <= k < |lines| ==> !IsHeader(lines[k])
    ensures ProjectAfter(lines, project) == project
    decreases |lines|
  {
    if lines != [] {
      NoHeaderNoProject(lines[..|lines| - 1], project);
    }
  }

  /** After the header at index `h`, up to the next header, the project in
      force is the one that header names. */
  lemma ProjectAfterHeader(lines: seq<string>, h: nat, k: nat)
    requires h < k <= |lines| && IsHeader(lines[h])
    requires forall i :: h < i < k ==> !IsHeader(lines[i])
    ensures ProjectAfter(lines[..k], None) == Some(HeaderProject(lines[h]))
  {
    var a, b := lines[..h + 1], lines[h + 1..k];
    assert lines[..k] == a + b;
    ProjectAfterAppend(a, b, None);
    assert a[..h] == lines[..h];
    forall i | 0 <= i < |b| ensures !IsHeader(b[i]) {
      assert b[i] == lines[h + 1 + i];
    }
    NoHeaderNoProject(b, ProjectAfter(a, None));
  }

  lemma {:induction false} ProjectAfterAppend(a: seq<string>, b: seq<string>, project: Option<string>)
    ensures ProjectAfter(a + b, project) == ProjectAfter(b, ProjectAfter(a, project))
    decreases |b|
  {
    if b == [] {
      assert a + b == a;
    } else {
      var b' := b[..|b| - 1];
      assert (a + b)[..|a + b| - 1] == a + b';
      assert (a + b)[|a + b| - 1] == b[|b| - 1];
      ProjectAfterAppend(a, b', project);
    }
  }

  /** After a header whose identifier is empty, up to the next header, no
      data line produces a record. */
  lemma DataAfterEmptyHeader(lines: seq<string>, h: nat, k: nat)
    requires h < k < |lines| && IsHeader(lines[h]) && HeaderProject(lines[h]) == ""
    requires forall i :: h < i < k ==> !IsHeader(lines[i])
    ensures !Yields(lines, k)
  {
    ProjectAfterHeader(lines, h, k);
  }

  /** A data line with no header anywhere before it produces no record. */
  lemma DataBeforeHeader(lines: seq<string>, k: nat)
    requires k < |lines|
    requires forall i :: 0 <= i < k ==> !IsHeader(lines[i])
    ensures !Yields(lines, k)
  {
    forall i | 0 <= i < k ensures !IsHeader(lines[..k][i]) {
      assert lines[..k][i] == lines[i];
    }
    NoHeaderNoProject(lines[..k], None);
  }

  /** A line laid out in columns whose first column is `>` is a data line,
      not a header, and its tokens are the columns. */
  lemma ColumnsLine(lead: string, tokens: seq<string>, gaps: seq<string>)
    requires AllSpace(lead) && |gaps| == |tokens| && |tokens| >= 1 && tokens[0] == ">"
    requires forall k :: 0 <= k < |tokens| ==> tokens[k] != [] && NoSpace(tokens[k])
    requires forall k :: 0 <= k < |gaps| ==> AllSpace(gaps[k])
    requires forall k :: 0 <= k < |gaps| - 1 ==> gaps[k] != []
    ensures SplitWs(lead + Spaced(tokens, gaps)) == tokens
    ensures IsDataLine(lead + Spaced(tokens, gaps)) && !IsHeader(lead + Spaced(tokens, gaps))
  {
    var line := lead + Spaced(tokens, gaps);
    SplitWsSpaced(lead, tokens, gaps);
    StripStartsLikeFirstToken(line, '>');
    DataLineTest(line);
    assert line[0] == (if lead == [] then '>' else lead[0]);
  }

  /** A header with a non-empty identifier followed by a data line laid out in
      columns, with gaps of any width: the scan yields the one record holding
      that project and columns 1, 2 and 4. */
  lemma HeaderThenColumns(header: string, lead: string, tokens: seq<string>, gaps: seq<string>)
    requires IsHeader(header) && HeaderProject(header) != ""
    requires AllSpace(lead) && |gaps| == |tokens| && |tokens| >= 5 && tokens[0] == ">"
    requires forall k :: 0 <= k < |tokens| ==> tokens[k] != [] && NoSpace(tokens[k])
    requires forall k :: 0 <= k < |gaps| ==> AllSpace(gaps[k])
    requires forall k :: 0 <= k < |gaps| - 1 ==> gaps[k] != []
    ensures Parse([header, lead + Spaced(tokens, gaps)])
         == Parsed([PackageUpdate(HeaderProject(header), tokens[1], tokens[2], tokens[4])])
  {
    var line := lead + Spaced(tokens, gaps);
    ColumnsLine(lead, tokens, gaps);
    assert [header, line] == [header] + [line];
    ParseFromCons(header, [line], None, 0);
    SingleLine(line, Some(HeaderProject(header)), 1);
  }
}
