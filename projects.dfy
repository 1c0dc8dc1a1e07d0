/** Finding and choosing the startup project: the `.csproj` lines of
    `dotnet sln list` (`list_startup_projects`) and the numbered choice among
    them (`ask_for_project`). */
module ProjectSelection {
  import opened PyText
  import opened Toolchain

  const ProjectSuffix: string := ".csproj"

  /** The stripped lines that end in `.csproj`, in their original order. */
  function CsprojLines(lines: seq<string>): (r: seq<string>)
    ensures |r| <= |lines|
    ensures forall k :: 0 <= k < |r| ==> EndsWith(r[k], ProjectSuffix)
  {
    if lines == [] then []
    else
      var line := Strip(lines[0]);
      (if EndsWith(line, ProjectSuffix) then [line] else []) + CsprojLines(lines[1..])
  }

  /** `list_startup_projects`: nothing when the listing command failed or
      printed nothing, the `.csproj` lines of its output otherwise. The
      contract states that promise outright; the filter itself is pinned down
      by `CsprojLinesAppend`, `CsprojLinesSingle`, `CsprojLinesComplete` and
      `CsprojLinesSound`. */
  function StartupProjects(listing: Outcome): (r: seq<string>)
    ensures !HasOutput(listing) ==> r == []
    ensures HasOutput(listing) ==> r == CsprojLines(listing.stdout)
  {
    if HasOutput(listing) then CsprojLines(listing.stdout) else []
  }

  /** The filter respects concatenation, so it keeps the order of the lines. */
  lemma {:induction false} CsprojLinesAppend(a: seq<string>, b: seq<string>)
    ensures CsprojLines(a + b) == CsprojLines(a) + CsprojLines(b)
    decreases |a|
  {
    if a == [] {
      assert a + b == b;
    } else {
      var x, rest := a[0], a[1..];
      var kept := if EndsWith(Strip(x), ProjectSuffix) then [Strip(x)] else [];
      assert a == [x] + rest && a + b == [x] + (rest + b);
      calc {
        CsprojLines(a + b);
        { CsprojLinesCons(x, rest + b); }
        kept + CsprojLines(rest + b);
        { CsprojLinesAppend(rest, b); }
        kept + (CsprojLines(rest) + CsprojLines(b));
        (kept + CsprojLines(rest)) + CsprojLines(b);
        { CsprojLinesCons(x, rest); }
        CsprojLines(a) + CsprojLines(b);
      }
    }
  }

  lemma CsprojLinesCons(x: string, rest: seq<string>)
    ensures CsprojLines([x] + rest)
         == (if EndsWith(Strip(x), ProjectSuffix) then [Strip(x)] else []) + CsprojLines(rest)
  {
    assert ([x] + rest)[0] == x && ([x] + rest)[1..] == rest;
  }

  /** A single line contributes its stripped form exactly when that ends in `.csproj`. */
  lemma CsprojLinesSingle(line: string)
    ensures CsprojLines([line]) == if EndsWith(Strip(line), ProjectSuffix) then [Strip(line)] else []
  {
    assert [line][1..] == [];
  }

  /** Every line whose stripped form ends in `.csproj` is selected. */
  lemma {:induction false} CsprojLinesComplete(lines: seq<string>, i: nat)
    requires i < |lines| && EndsWith(Strip(lines[i]), ProjectSuffix)
    ensures Strip(lines[i]) in CsprojLines(lines)
    decreases |lines|
  {
    if i > 0 {
      CsprojLinesComplete(lines[1..], i - 1);
    }
  }

  /** Every selected entry is the stripped form of some line of the listing. */
  lemma {:induction false} CsprojLinesSound(lines: seq<string>, j: nat)
    requires j < |CsprojLines(lines)|
    ensures exists i :: 0 <= i < |lines| && CsprojLines(lines)[j] == Strip(lines[i])
    decreases |lines|
  {
    var r, rest := CsprojLines(lines), CsprojLines(lines[1..]);
    var kept := if EndsWith(Strip(lines[0]), ProjectSuffix) then [Strip(lines[0])] else [];
    assert r == kept + rest;
    if j < |kept| {
      assert r[j] == Strip(lines[0]);
    } else {
      CsprojLinesSound(lines[1..], j - |kept|);
      var i :| 0 <= i < |lines[1..]| && rest[j - |kept|] == Strip(lines[1..][i]);
      assert r[j] == rest[j - |kept|];
      assert lines[1..][i] == lines[i + 1];
    }
  }

  /** `ask_for_project` after the number has been read: the `selection`-th
      project, counting from one, or none for 0 and every number out of range.
      The contract is the bounds check itself, stated both ways. */
  function AskForProject(projects: seq<string>, selection: int): (r: Option<string>)
    ensures r.Some? <==> 1 <= selection <= |projects|
    ensures r.Some? ==> r.value == projects[selection - 1]
  {
    if 1 <= selection <= |projects| then Some(projects[selection - 1]) else None
  }

  /** A chosen project is never the empty string, so the caller's truth test on
      it is the same as asking whether a project was chosen. */
  lemma ChosenProjectIsTruthy(lines: seq<string>, selection: int)
    ensures Truthy(AskForProject(CsprojLines(lines), selection)) <==> 1 <= selection <= |CsprojLines(lines)|
  {
    var r := AskForProject(CsprojLines(lines), selection);
    if r.Some? {
      assert EndsWith(r.value, ProjectSuffix);
    }
  }
}
