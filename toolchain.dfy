/** The external `dotnet` toolchain, seen from the script: the five commands it
    issues, what a finished process reports back, and the observable events
    (commands run, menus shown) whose order the rest of the model speaks about. */
module Toolchain {

  /** The five `dotnet` sub-commands the script runs. */
  datatype Command =
    | ListOutdated                                          // dotnet list package --outdated
    | AddPackage(project: string, name: string, version: string) // dotnet add <project> package <name> --version <version>
    | ListSolution                                          // dotnet sln list
    | Restore(project: string)                              // dotnet restore --no-cache <project>
    | Build(project: string)                                // dotnet build <project>

  /** A finished process: exit status zero with its standard output, already
      split into lines, or a non-zero exit status with its standard error. */
  datatype Outcome = Succeeded(stdout: seq<string>) | Failed(stderr: string)

  /** The toolchain as the script sees it: every command has an outcome. */
  type Tool = Command -> Outcome

  /** What an observer of the run sees, in order: a command being started, or
      the numbered menu of startup projects being shown. */
  datatype Event = Exec(command: Command) | Prompt(choices: seq<string>)

  /** The argument vector handed to the process for each command. */
  function Argv(c: Command): (argv: seq<string>)
    ensures |argv| >= 3 && argv[0] == "dotnet"
  {
    match c
    case ListOutdated => ["dotnet", "list", "package", "--outdated"]
    case AddPackage(project, name, version) => ["dotnet", "add", project, "package", name, "--version", version]
    case ListSolution => ["dotnet", "sln", "list"]
    case Restore(project) => ["dotnet", "restore", "--no-cache", project]
    case Build(project) => ["dotnet", "build", project]
  }

  /** Distinct commands are distinct argument vectors, so a toolchain keyed on
      `Command` loses nothing against one keyed on the argument vector. */
  lemma ArgvInjective(c: Command, d: Command)
    requires Argv(c) == Argv(d)
    ensures c == d
  {
    var a := Argv(c);
    assert a[1] == Argv(d)[1];
    match c
    case AddPackage(p, n, v) => assert a[2] == p && a[4] == n && a[6] == v;
    case Restore(p) => assert a[3] == p;
    case Build(p) => assert a[2] == p;
    case _ =>
  }

  /** Python truthiness of the captured output of a successful command: a
      non-empty standard output is exactly one that has at least one line. */
  predicate HasOutput(o: Outcome) {
    o.Succeeded? && o.stdout != []
  }
}
