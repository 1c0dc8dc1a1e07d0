/** The script's main flow: list outdated packages, update them all, and only
    when every update succeeded find the startup project, choose it (without a
    question when there is only one) and restore, then build, it. */
module Driver {
  import opened PyText
  import opened Toolchain
  import opened Outdated
  import opened Updater
  import opened ProjectSelection

  /** What `restore_and_build` reports, with the commands it ran. */
  datatype BuildRun = BuildRun(ok: bool, events: seq<Event>)

  /** `restore_and_build`: nothing for an absent project; otherwise a restore,
      and a build only when the restore succeeded. */
  function RestoreBuild(startup: Option<string>, tool: Tool): (r: BuildRun)
    ensures !Truthy(startup) ==> !r.ok && r.events == []
    ensures Truthy(startup) ==> |r.events| >= 1 && r.events[0] == Exec(Restore(startup.value))
    ensures Truthy(startup) ==>
              (tool(Restore(startup.value)).Succeeded? <==> r.events == [Exec(Restore(startup.value)), Exec(Build(startup.value))])
    ensures Truthy(startup) && tool(Restore(startup.value)).Failed? ==> r.events == [Exec(Restore(startup.value))]
    ensures r.ok <==> Truthy(startup) && tool(Restore(startup.value)).Succeeded? && tool(Build(startup.value)).Succeeded?
  {
    if !Truthy(startup) then BuildRun(false, [])
    else
      var project := startup.value;
      if tool(Restore(project)).Failed? then BuildRun(false, [Exec(Restore(project))])
      else BuildRun(tool(Build(project)).Succeeded?, [Exec(Restore(project)), Exec(Build(project))])
  }

  /** `restore_and_build` as the source writes it: sequential steps with early returns. */
  method RestoreAndBuild(startup: Option<string>, tool: Tool) returns (ok: bool, events: seq<Event>)
    ensures BuildRun(ok, events) == RestoreBuild(startup, tool)
  {
    events := [];
    if !Truthy(startup) {
      return false, events;
    }
    var project := startup.value;
    events := events + [Exec(Restore(project))];
    if tool(Restore(project)).Failed? {
      return false, events;
    }
    events := events + [Exec(Build(project))];
    ok := tool(Build(project)).Succeeded?;
  }

  /** Where a run of the script ends. */
  datatype Report =
    | ListingFailed                             // the outdated listing failed or printed nothing
    | ParseCrashed(line: nat)                   // a data line lacked tokens: `IndexError` escapes
    | NothingToUpdate                           // no outdated packages were found
    | UpdatesFailed(errors: seq<UpdateError>)   // some update failed: restore and build are skipped
    | NoStartupProjects                         // the solution lists no `.csproj`
    | SelectionSkipped                          // the user chose no project
    | Finished(ok: bool)                        // restore and build ran; `ok` when both succeeded

  datatype Run = Run(report: Report, events: seq<Event>)

  /** The startup project, with the menu event when one was shown: the sole
      project without a question, otherwise the one the user picked. */
  function Choose(projects: seq<string>, selection: int): (Option<string>, seq<Event>)
    requires projects != []
  {
    if |projects| == 1 then (Some(projects[0]), [])
    else (AskForProject(projects, selection), [Prompt(projects)])
  }

  /** The commands of a run that got past its updates, up to the solution listing. */
  function Preamble(packages: seq<PackageUpdate>): seq<Event> {
    [Exec(ListOutdated)] + UpdateEvents(packages) + [Exec(ListSolution)]
  }

  /** The whole run, given the toolchain and the number the user would type. */
  function Script(tool: Tool, selection: int): (r: Run)
    ensures |r.events| >= 1 && r.events[0] == Exec(ListOutdated)
  {
    var listing := tool(ListOutdated);
    if !HasOutput(listing) then Run(ListingFailed, [Exec(ListOutdated)])
    else AfterListing(Parse(listing.stdout), tool, selection)
  }

  /** The run once the outdated listing has been parsed: stop on a crash or an
      empty result, otherwise update everything and stop if anything failed. */
  function AfterListing(parsed: ParseResult, tool: Tool, selection: int): Run {
    match parsed
    case TooFewTokens(k) => Run(ParseCrashed(k), [Exec(ListOutdated)])
    case Parsed(packages) =>
      if packages == [] then Run(NothingToUpdate, [Exec(ListOutdated)])
      else if FailedUpdates(packages, tool) != [] then
        Run(UpdatesFailed(FailedUpdates(packages, tool)), [Exec(ListOutdated)] + UpdateEvents(packages))
      else Deploy(Preamble(packages), StartupProjects(tool(ListSolution)), tool, selection)
  }

  /** The run after clean updates and the solution listing (`pre`): stop when
      no project is listed or none is chosen, otherwise restore and build. */
  function Deploy(pre: seq<Event>, projects: seq<string>, tool: Tool, selection: int): Run {
    if projects == [] then Run(NoStartupProjects, pre)
    else
      var (startup, asked) := Choose(projects, selection);
      if !Truthy(startup) then Run(SelectionSkipped, pre + asked)
      else
        var build := RestoreBuild(startup, tool);
        Run(Finished(build.ok), pre + asked + build.events)
  }

  /** The `__main__` block, with the number typed at the menu as a parameter. */
  method RunScript(tool: Tool, selection: int) returns (report: Report, events: seq<Event>)
    ensures Run(report, events) == Script(tool, selection)
  {
    events := [Exec(ListOutdated)];
    var outdated := tool(ListOutdated);
    if !HasOutput(outdated) {
      return ListingFailed, events;
    }
    var parsed := ParseOutdatedOutput(outdated.stdout);
    if parsed.TooFewTokens? {
      return ParseCrashed(parsed.line), events;
    }
    var packages := parsed.packages;
    if packages == [] {
      return NothingToUpdate, events;
    }
    var errors, updates := UpdatePackages(packages, tool);
    events := events + updates;
    if errors != [] {
      return UpdatesFailed(errors), events;
    }
    events := events + [Exec(ListSolution)];
    var projects := StartupProjects(tool(ListSolution));
    if projects == [] {
      return NoStartupProjects, events;
    }
    var startup: Option<string>;
    if |projects| == 1 {
      startup := Some(projects[0]);
    } else {
      events := events + [Prompt(projects)];
      startup := AskForProject(projects, selection);
    }
    if !Truthy(startup) {
      return SelectionSkipped, events;
    }
    var ok, builds := RestoreAndBuild(startup, tool);
    events := events + builds;
    report := Finished(ok);
  }


  // ---------------------------------------------------------------------------
  // Properties of a run

  /** The packages a run updates, when its listing was read successfully. */
  predicate ReachesUpdates(tool: Tool) {
    HasOutput(tool(ListOutdated)) && Parse(tool(ListOutdated).stdout).Parsed?
    && Parse(tool(ListOutdated).stdout).packages != []
  }

  function PackagesOf(tool: Tool): seq<PackageUpdate>
    requires ReachesUpdates(tool)
  {
    Parse(tool(ListOutdated).stdout).packages
  }

  /** Every update succeeded. */
  predicate UpdatesClean(tool: Tool) {
    ReachesUpdates(tool) && forall i :: 0 <= i < |PackagesOf(tool)| ==> tool(AddCommand(PackagesOf(tool)[i])).Succeeded?
  }

  /** No menu among `events`. */
  predicate NoPrompt(events: seq<Event>) {
    forall i :: 0 <= i < |events| ==> !events[i].Prompt?
  }

  lemma NoPromptAppend(a: seq<Event>, b: seq<Event>)
    requires NoPrompt(a) && NoPrompt(b)
    ensures NoPrompt(a + b)
  {
    forall i | 0 <= i < |a + b| ensures !(a + b)[i].Prompt? {
      if i >= |a| {
        assert (a + b)[i] == b[i - |a|];
      }
    }
  }

  /** Before the menu, only commands are run. */
  lemma PreambleRunsCommands(packages: seq<PackageUpdate>)
    ensures |Preamble(packages)| == |packages| + 2
    ensures NoPrompt([Exec(ListOutdated)] + UpdateEvents(packages))
    ensures NoPrompt(Preamble(packages))
  {
    var u := UpdateEvents(packages);
    if packages != [] {
      UpdateEventsAt(packages, 0);
    } else {
      assert u == [];
    }
    forall i | 0 <= i < |u| ensures !u[i].Prompt? {
      UpdateEventsAt(packages, i);
    }
    NoPromptAppend([Exec(ListOutdated)], u);
    NoPromptAppend([Exec(ListOutdated)] + u, [Exec(ListSolution)]);
  }

  /** The last stage keeps what ran before it. */
  lemma DeployExtends(pre: seq<Event>, projects: seq<string>, tool: Tool, selection: int)
    ensures |Deploy(pre, projects, tool, selection).events| >= |pre|
    ensures Deploy(pre, projects, tool, selection).events[..|pre|] == pre
  {
    var events := Deploy(pre, projects, tool, selection).events;
    if projects == [] {
      assert events == pre;
    } else {
      var (startup, asked) := Choose(projects, selection);
      if Truthy(startup) {
        assert events == pre + (asked + RestoreBuild(startup, tool).events);
      } else {
        assert events == pre + asked;
      }
    }
  }

  /** A menu in the last stage is shown only for two or more projects, first
      thing, listing exactly those projects, and never again. */
  lemma DeployPrompts(pre: seq<Event>, projects: seq<string>, tool: Tool, selection: int)
    requires NoPrompt(pre)
    ensures |projects| < 2 ==> NoPrompt(Deploy(pre, projects, tool, selection).events)
    ensures |projects| >= 2 ==>
              var events := Deploy(pre, projects, tool, selection).events;
              |events| > |pre| && events[|pre|] == Prompt(projects) && NoPrompt(events[|pre| + 1..])
  {
    var events := Deploy(pre, projects, tool, selection).events;
    if projects == [] {
      assert events == pre;
    } else if |projects| == 1 {
      var b := RestoreBuild(Some(projects[0]), tool).events;
      assert NoPrompt(b);
      if projects[0] == [] {
        assert events == pre + [];
      } else {
        assert events == pre + b;
        NoPromptAppend(pre, b);
      }
    } else {
      var startup := AskForProject(projects, selection);
      var b := if Truthy(startup) then RestoreBuild(startup, tool).events else [];
      assert NoPrompt(b);
      assert events == pre + [Prompt(projects)] + b;
      assert events[|pre| + 1..] == b;
    }
  }

  /** Once every update succeeded, the run continues with the solution listing. */
  lemma CleanRun(tool: Tool, selection: int)
    requires UpdatesClean(tool)
    ensures Script(tool, selection)
         == Deploy(Preamble(PackagesOf(tool)), StartupProjects(tool(ListSolution)), tool, selection)
  {
    FailedUpdatesNone(PackagesOf(tool), tool);
  }

  /** Each way a run can stop before the solution listing, with what it ran. */
  lemma EarlyStops(tool: Tool, selection: int)
    ensures !HasOutput(tool(ListOutdated)) ==> Script(tool, selection) == Run(ListingFailed, [Exec(ListOutdated)])
    ensures HasOutput(tool(ListOutdated)) && Parse(tool(ListOutdated).stdout).TooFewTokens? ==>
              Script(tool, selection) == Run(ParseCrashed(Parse(tool(ListOutdated).stdout).line), [Exec(ListOutdated)])
    ensures HasOutput(tool(ListOutdated)) && Parse(tool(ListOutdated).stdout) == Parsed([]) ==>
              Script(tool, selection) == Run(NothingToUpdate, [Exec(ListOutdated)])
    ensures ReachesUpdates(tool) && !UpdatesClean(tool) ==>
              Script(tool, selection)
              == Run(UpdatesFailed(FailedUpdates(PackagesOf(tool), tool)), [Exec(ListOutdated)] + UpdateEvents(PackagesOf(tool)))
  {
    if ReachesUpdates(tool) {
      FailedUpdatesNone(PackagesOf(tool), tool);
    }
  }

  /** Restore and build are reached only when every update succeeded; then
      the run lists the outdated packages, attempts each update in order,
      and lists the solution before it may ask and restore. */
  lemma BuildOnlyAfterCleanUpdates(tool: Tool, selection: int)
    ensures Script(tool, selection).report.Finished? ==> UpdatesClean(tool)
    ensures Script(tool, selection).report.Finished? ==>
              |Script(tool, selection).events| > |Preamble(PackagesOf(tool))|
              && Script(tool, selection).events[..|Preamble(PackagesOf(tool))|] == Preamble(PackagesOf(tool))
  {
    EarlyStops(tool, selection);
    if UpdatesClean(tool) {
      var pre := Preamble(PackagesOf(tool));
      var projects := StartupProjects(tool(ListSolution));
      CleanRun(tool, selection);
      DeployExtends(pre, projects, tool, selection);
      if Script(tool, selection).report.Finished? {
        assert projects != [];
        assert |Script(tool, selection).events| > |pre|;
      }
    }
  }

  /** A failed update stops the run after the updates: all of them were still
      attempted, and no further command is run. */
  lemma FailedUpdateSkipsBuild(tool: Tool, selection: int)
    requires ReachesUpdates(tool) && !UpdatesClean(tool)
    ensures Script(tool, selection).report == UpdatesFailed(FailedUpdates(PackagesOf(tool), tool))
    ensures Script(tool, selection).events == [Exec(ListOutdated)] + UpdateEvents(PackagesOf(tool))
  {
    EarlyStops(tool, selection);
  }

  /** With every update successful and exactly one `.csproj` in the solution,
      that project is restored without a question, whatever would be typed. */
  lemma SoleProjectChosenWithoutAsking(tool: Tool, selection: int, other: int)
    requires UpdatesClean(tool)
    requires |StartupProjects(tool(ListSolution))| == 1
    ensures Script(tool, selection) == Script(tool, other)
    ensures var project := StartupProjects(tool(ListSolution))[0];
            Script(tool, selection)
            == Run(Finished(RestoreBuild(Some(project), tool).ok),
                   Preamble(PackagesOf(tool)) + RestoreBuild(Some(project), tool).events)
    ensures NoPrompt(Script(tool, selection).events)
  {
    var projects := StartupProjects(tool(ListSolution));
    assert EndsWith(projects[0], ProjectSuffix);
    var pre := Preamble(PackagesOf(tool));
    CleanRun(tool, selection);
    CleanRun(tool, other);
    assert pre + [] + RestoreBuild(Some(projects[0]), tool).events == pre + RestoreBuild(Some(projects[0]), tool).events;
    PreambleRunsCommands(PackagesOf(tool));
    DeployPrompts(pre, projects, tool, selection);
  }

  /** The menu is shown at most once, only when the solution lists two or more
      projects and every update succeeded, right after the solution listing,
      and it shows exactly those projects. */
  lemma PromptListsSeveralProjects(tool: Tool, selection: int, i: nat)
    requires i < |Script(tool, selection).events| && Script(tool, selection).events[i].Prompt?
    ensures UpdatesClean(tool)
    ensures |StartupProjects(tool(ListSolution))| >= 2
    ensures i == |Preamble(PackagesOf(tool))|
    ensures Script(tool, selection).events[i] == Prompt(StartupProjects(tool(ListSolution)))
  {
    EarlyStops(tool, selection);
    if !UpdatesClean(tool) {
      if ReachesUpdates(tool) {
        PreambleRunsCommands(PackagesOf(tool));
      }
      assert false;
    } else {
      var pre := Preamble(PackagesOf(tool));
      var projects := StartupProjects(tool(ListSolution));
      CleanRun(tool, selection);
      PreambleRunsCommands(PackagesOf(tool));
      DeployExtends(pre, projects, tool, selection);
      DeployPrompts(pre, projects, tool, selection);
      var events := Script(tool, selection).events;
      if i < |pre| {
        assert false;
      } else if i > |pre| {
        assert false;
      }
    }
  }

  /** With several projects, 0 or any number outside 1..n skips restore and build. */
  lemma OutOfRangeChoiceSkips(tool: Tool, selection: int)
    requires UpdatesClean(tool)
    requires |StartupProjects(tool(ListSolution))| >= 2
    requires !(1 <= selection <= |StartupProjects(tool(ListSolution))|)
    ensures Script(tool, selection)
         == Run(SelectionSkipped, Preamble(PackagesOf(tool)) + [Prompt(StartupProjects(tool(ListSolution)))])
  {
    CleanRun(tool, selection);
  }

  /** With several projects, a number in 1..n shows the menu, then restores
      and builds the project with that number. */
  lemma InRangeChoiceRestores(tool: Tool, selection: int)
    requires UpdatesClean(tool)
    requires |StartupProjects(tool(ListSolution))| >= 2
    requires 1 <= selection <= |StartupProjects(tool(ListSolution))|
    ensures var projects := StartupProjects(tool(ListSolution));
            var build := RestoreBuild(Some(projects[selection - 1]), tool);
            Script(tool, selection)
            == Run(Finished(build.ok), Preamble(PackagesOf(tool)) + [Prompt(projects)] + build.events)
  {
    CleanRun(tool, selection);
    assert EndsWith(StartupProjects(tool(ListSolution))[selection - 1], ProjectSuffix);
  }

  /** A solution without a `.csproj` ends the run right after its listing. */
  lemma NoProjectsStops(tool: Tool, selection: int)
    requires UpdatesClean(tool)
    requires StartupProjects(tool(ListSolution)) == []
    ensures Script(tool, selection) == Run(NoStartupProjects, Preamble(PackagesOf(tool)))
  {
    CleanRun(tool, selection);
  }

  lemma OnePackagePreamble(record: PackageUpdate)
    ensures Preamble([record]) == [Exec(ListOutdated), Exec(AddCommand(record)), Exec(ListSolution)]
  {
    assert [record][..0] == [];
    assert UpdateEvents([record]) == [Exec(AddCommand(record))];
  }

  /** The run of one outdated package and one startup project: one update with
      the listed version, then restore and build of that project in that
      order, with no question asked. */
  lemma OnePackageOneProject(tool: Tool, selection: int)
    requires ReachesUpdates(tool) && |PackagesOf(tool)| == 1
    requires tool(AddCommand(PackagesOf(tool)[0])).Succeeded?
    requires |StartupProjects(tool(ListSolution))| == 1
    requires tool(Restore(StartupProjects(tool(ListSolution))[0])).Succeeded?
    ensures var record := PackagesOf(tool)[0];
            var project := StartupProjects(tool(ListSolution))[0];
            Script(tool, selection).events
            == [Exec(ListOutdated), Exec(AddPackage(record.project, record.name, record.latestVersion)),
                Exec(ListSolution), Exec(Restore(project)), Exec(Build(project))]
    ensures Script(tool, selection).report == Finished(tool(Build(StartupProjects(tool(ListSolution))[0])).Succeeded?)
  {
    var record := PackagesOf(tool)[0];
    assert PackagesOf(tool) == [record];
    OnePackagePreamble(record);
    SoleProjectChosenWithoutAsking(tool, selection, selection);
    var project := StartupProjects(tool(ListSolution))[0];
    assert EndsWith(project, ProjectSuffix);
  }
}
