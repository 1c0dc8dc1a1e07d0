/** The update step (`update_packages`): one `dotnet add ... package ...
    --version ...` per parsed record, in order, collecting an error entry for
    every command that fails and never stopping early. */
module Updater {
  import opened Outdated
  import opened Toolchain

  /** The command that moves one package of one project to its latest version. */
  function AddCommand(p: PackageUpdate): (c: Command)
    ensures Argv(c) == ["dotnet", "add", p.project, "package", p.name, "--version", p.latestVersion]
  {
    AddPackage(p.project, p.name, p.latestVersion)
  }

  /** One failed update: the package name and the standard error of its command. */
  datatype UpdateError = UpdateError(name: string, stderr: string)

  /** The commands the update step runs for `packages`. */
  function UpdateEvents(packages: seq<PackageUpdate>): (r: seq<Event>)
    ensures |r| == |packages|
  {
    if packages == [] then []
    else UpdateEvents(packages[..|packages| - 1]) + [Exec(AddCommand(packages[|packages| - 1]))]
  }

  /** The error entries the update step collects for `packages`. */
  function FailedUpdates(packages: seq<PackageUpdate>, tool: Tool): (r: seq<UpdateError>)
    ensures |r| <= |packages|
  {
    if packages == [] then []
    else
      var p := packages[|packages| - 1];
      var outcome := tool(AddCommand(p));
      FailedUpdates(packages[..|packages| - 1], tool)
        + (if outcome.Failed? then [UpdateError(p.name, outcome.stderr)] else [])
  }

  /** `update_packages`: runs every update and returns the collected errors,
      with the commands it ran. */
  method UpdatePackages(packages: seq<PackageUpdate>, tool: Tool) returns (errors: seq<UpdateError>, events: seq<Event>)
    ensures events == UpdateEvents(packages)
    ensures errors == FailedUpdates(packages, tool)
  {
    errors, events := [], [];
    var i := 0;
    while i < |packages|
      invariant i <= |packages|
      invariant events == UpdateEvents(packages[..i])
      invariant errors == FailedUpdates(packages[..i], tool)
    {
      var package := packages[i];
      var command := AddCommand(package);
      events := events + [Exec(command)];
      var outcome := tool(command);
      if outcome.Failed? {
        errors := errors + [UpdateError(package.name, outcome.stderr)];
      }
      assert packages[..i + 1][..i] == packages[..i];
      i := i + 1;
    }
    assert packages[..i] == packages;
  }

  /** Every package is attempted, exactly once and in order. */
  lemma {:induction false} UpdateEventsAt(packages: seq<PackageUpdate>, i: nat)
    requires i < |packages|
    ensures |UpdateEvents(packages)| == |packages|
    ensures UpdateEvents(packages)[i] == Exec(AddCommand(packages[i]))
    decreases |packages|
  {
    var init := packages[..|packages| - 1];
    if i < |init| {
      UpdateEventsAt(init, i);
    } else if init != [] {
      UpdateEventsAt(init, 0);
    } else {
      assert UpdateEvents(init) == [];
    }
  }

  /** Error entries follow package order: those of `a` come before those of `b`. */
  lemma {:induction false} FailedUpdatesAppend(a: seq<PackageUpdate>, b: seq<PackageUpdate>, tool: Tool)
    ensures FailedUpdates(a + b, tool) == FailedUpdates(a, tool) + FailedUpdates(b, tool)
    decreases |b|
  {
    if b == [] {
      assert a + b == a;
    } else {
      var b' := b[..|b| - 1];
      assert (a + b)[..|a + b| - 1] == a + b';
      assert (a + b)[|a + b| - 1] == b[|b| - 1];
      FailedUpdatesAppend(a, b', tool);
    }
  }

  /** The update of a single package contributes an entry exactly when it fails. */
  lemma FailedUpdatesSingle(p: PackageUpdate, tool: Tool)
    ensures FailedUpdates([p], tool)
         == if tool(AddCommand(p)).Failed? then [UpdateError(p.name, tool(AddCommand(p)).stderr)] else []
  {
    assert [p][..0] == [];
  }

  /** The error list is empty exactly when every update succeeded. */
  lemma {:induction false} FailedUpdatesNone(packages: seq<PackageUpdate>, tool: Tool)
    ensures FailedUpdates(packages, tool) == []
        <==> forall i :: 0 <= i < |packages| ==> tool(AddCommand(packages[i])).Succeeded?
    decreases |packages|
  {
    if packages != [] {
      var init := packages[..|packages| - 1];
      FailedUpdatesNone(init, tool);
      assert forall i :: 0 <= i < |init| ==> init[i] == packages[i];
    }
  }

  /** There is at most one entry per package, and each entry is that of a
      package whose update failed, with that command's standard error. */
  lemma {:induction false} FailedUpdatesOrigin(packages: seq<PackageUpdate>, tool: Tool, j: nat)
    requires j < |FailedUpdates(packages, tool)|
    ensures |FailedUpdates(packages, tool)| <= |packages|
    ensures exists i :: 0 <= i < |packages| && tool(AddCommand(packages[i])).Failed?
                        && FailedUpdates(packages, tool)[j]
                           == UpdateError(packages[i].name, tool(AddCommand(packages[i])).stderr)
    decreases |packages|
  {
    var n := |packages| - 1;
    var init := packages[..n];
    var errs := FailedUpdates(packages, tool);
    if j < |FailedUpdates(init, tool)| {
      FailedUpdatesOrigin(init, tool, j);
      var i :| 0 <= i < |init| && tool(AddCommand(init[i])).Failed?
               && FailedUpdates(init, tool)[j] == UpdateError(init[i].name, tool(AddCommand(init[i])).stderr);
      assert init[i] == packages[i];
      assert errs[j] == FailedUpdates(init, tool)[j];
    } else {
      assert errs[j] == UpdateError(packages[n].name, tool(AddCommand(packages[n])).stderr);
      if init != [] && FailedUpdates(init, tool) != [] {
        FailedUpdatesOrigin(init, tool, 0);
      }
    }
  }
}
