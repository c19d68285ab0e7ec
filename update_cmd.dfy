/** What `update` does with the install pass and the update plan
    (cmd/update.go). */
module UpdateCommand {
  import opened Results
  import opened Seqs
  import opened ManifestTypes
  import opened Installer

  /** How a plan record is reported. */
  datatype Kind = New | UpToDate | NoCompatible | Latest | Available

  /** The report chain, first test first. */
  function Classify(u: Update): (k: Kind)
    ensures k == New <==> u.currentVersion == ""
    ensures k == UpToDate <==> u.currentVersion != "" && u.currentVersion == u.targetVersion
    ensures k == NoCompatible <==> u.currentVersion != "" && u.currentVersion != u.targetVersion && u.targetVersion == ""
    ensures k == Latest <==> u.currentVersion != "" && u.currentVersion != u.targetVersion && u.targetVersion == "latest"
  {
    if u.currentVersion == "" then New
    else if u.currentVersion == u.targetVersion then UpToDate
    else if u.targetVersion == "" then NoCompatible
    else if u.targetVersion == "latest" then Latest
    else Available
  }

  /** Whether a record adds to the printed total. */
  predicate Counted(u: Update) {
    Classify(u) in {New, Latest, Available}
  }

  /** The counting loop: one per new, latest or plain update record. */
  method CountUpdates(plan: seq<Update>) returns (total: nat)
    ensures total == |Filter(plan, Counted)|
  {
    total := 0;
    for i := 0 to |plan|
      invariant total == |Filter(plan[..i], Counted)|
    {
      FilterSnoc(plan[..i], plan[i], Counted);
      assert plan[..i + 1] == plan[..i] + [plan[i]];
      var p := plan[i];
      if p.currentVersion == "" {
        total := total + 1;
      } else if p.currentVersion == p.targetVersion {
      } else if p.targetVersion == "" {
      } else if p.targetVersion == "latest" {
        total := total + 1;
      } else {
        total := total + 1;
      }
    }
    assert plan[..|plan|] == plan;
  }

  /** A plan never holds a record whose versions agree, so the up-to-date
      report cannot be printed for it. */
  lemma PlanNeverUpToDate(resolve: Entry -> Result<string>, entries: seq<Entry>)
    requires Plan(resolve, entries).Ok?
    ensures forall u :: u in Plan(resolve, entries).value ==> Classify(u) != UpToDate
  {
    PlanRecords(resolve, entries);
  }

  /** The steps `update` takes, in order. */
  datatype Step = InstallAll | PlanAll | InstallUpdates

  /** `update` given the outcomes of its calls: install everything, plan, and
      install again unless the plan is empty or this is a dry run. */
  method Run(firstInstall: Result<()>, plan: Result<seq<Update>>, dryRun: bool, secondInstall: Result<()>)
    returns (steps: seq<Step>, total: nat, r: Result<()>)
    ensures |steps| >= 1 && steps[0] == InstallAll
    ensures firstInstall.Err? <==> steps == [InstallAll] && r == firstInstall
    ensures firstInstall.Ok? ==> |steps| >= 2 && steps[..2] == [InstallAll, PlanAll]
    ensures InstallUpdates in steps <==> firstInstall.Ok? && plan.Ok? && plan.value != [] && !dryRun
    ensures InstallUpdates in steps ==> steps == [InstallAll, PlanAll, InstallUpdates] && r == secondInstall
    ensures firstInstall.Ok? && plan.Err? ==> r == Err(plan.error)
    ensures firstInstall.Ok? && plan.Ok? ==> total == |Filter(plan.value, Counted)|
    ensures firstInstall.Ok? && plan.Ok? && (plan.value == [] || dryRun) ==> r == Ok(())
  {
    steps, total := [InstallAll], 0;
    if firstInstall.Err? {
      return steps, total, firstInstall;
    }
    steps := steps + [PlanAll];
    if plan.Err? {
      return steps, total, Err(plan.error);
    }
    if |plan.value| == 0 {
      return steps, total, Ok(());
    }
    total := CountUpdates(plan.value);
    if dryRun {
      return steps, total, Ok(());
    }
    steps := steps + [InstallUpdates];
    return steps, total, secondInstall;
  }
}
