/**
 * The plugin copy's orchestrator `updateAppSpecs`: scan, assemble one
 * feature per spec folder, aggregate the statistics, write `app-specs.md`
 * through a temporary file, and, when cleanup is asked for, archive the
 * folders, validate the archive, remove the folders and roll back when a
 * removal fails. The result flags record how far it got.
 *
 * The markdown renderer and the document validator of the plugin are not
 * part of this model: the rendering is the function `render` and the
 * validator's verdict the boolean `documentValid`.
 */
module PluginIndex {
  import opened Types
  import opened Text
  import opened Tree
  import opened Fs
  import opened Rules
  import opened Collections
  import opened Stats
  import opened PluginParser
  import opened PluginScanner
  import opened PluginArchive
  import opened Output

  // ---------------------------------------------------------------------------
  // Feature assembly

  /** The implementation plan link of a folder, relative to the specs directory. */
  function ImplementationLink(spec: SpecMetadata, performCleanup: bool): string {
    if spec.implementationFile.Some? then
      if performCleanup then "./.archive/latest/" + spec.name + "/implementation-plan.md"
      else "./" + spec.name + "/implementation-plan.md"
    else "./" + spec.name + "/"
  }

  /**
   * The feature the loop of step 2 builds for a record. `requirements` and
   * `plan` are what reading the record's two files gave; each is used only
   * when the record has that file.
   */
  function AssembleFeature(spec: SpecMetadata, requirements: Option<string>, plan: Option<string>,
                           performCleanup: bool, h: Heuristics): (f: Feature)
    ensures f.category == spec.category && f.implementationPlanLink == ImplementationLink(spec, performCleanup)
    ensures spec.requirementsFile.None? ==> f.title == spec.name && f.description == ""
    ensures spec.requirementsFile.Some? ==> (f.title, f.description) == ParseRequirements(requirements, h)
    ensures spec.implementationFile.None? ==>
              f.status == NotStarted && f.completionPercentage == 0 && f.tasksTotal == 0 && f.tasksCompleted == 0 && f.features == []
    ensures spec.implementationFile.Some? ==>
              var (facts, subs) := ParseImplementationPlan(plan, h);
              && f.status == facts.status && f.completionPercentage == facts.completionPercentage
              && f.tasksTotal == facts.tasksTotal && f.tasksCompleted == facts.tasksCompleted
              && f.effortEstimate == facts.effortEstimate && f.targetDate == facts.targetDate
              && f.priority == facts.priority && f.features == subs
    ensures f.tasksCompleted <= f.tasksTotal && f.completionPercentage <= 100 && |f.features| <= 10
  {
    var (title, description) := if spec.requirementsFile.Some? then ParseRequirements(requirements, h) else (spec.name, "");
    var link := ImplementationLink(spec, performCleanup);
    if spec.implementationFile.Some? then
      var (facts, subs) := ParseImplementationPlan(plan, h);
      Feature(title, description, facts.status, spec.category, facts.completionPercentage, facts.tasksTotal,
              facts.tasksCompleted, facts.effortEstimate, facts.targetDate, facts.priority, link, subs)
    else
      Feature(title, description, NotStarted, spec.category, 0, 0, 0, None, None, None, link, [])
  }

  /** What reading one of a record's files gives, when the record has it. */
  function ReadIn(root: Node, spec: SpecMetadata, file: Option<string>): Option<string> {
    if file.Some? then FileAt(root, [spec.name, file.value]) else None
  }

  function FeatureAt(root: Node, spec: SpecMetadata, performCleanup: bool, h: Heuristics): Feature {
    AssembleFeature(spec, ReadIn(root, spec, spec.requirementsFile), ReadIn(root, spec, spec.implementationFile), performCleanup, h)
  }

  /** Step 2's loop body as a function of a record, for a fixed tree. */
  function Assemble(root: Node, performCleanup: bool, h: Heuristics): SpecMetadata -> Feature {
    spec => FeatureAt(root, spec, performCleanup, h)
  }

  /** The features of the records, in order. */
  function FeaturesAt(root: Node, specs: seq<SpecMetadata>, performCleanup: bool, h: Heuristics): seq<Feature> {
    Map(specs, Assemble(root, performCleanup, h))
  }

  /**
   * Step 2 of `updateAppSpecs`: one feature per record, in order. Both
   * parsers catch their own read errors, so the loop's `catch` is never
   * taken and no record is dropped.
   */
  method CollectFeatures(fs: FileSystem, specs: seq<SpecMetadata>, performCleanup: bool, h: Heuristics) returns (features: seq<Feature>)
    ensures features == FeaturesAt(fs.root, specs, performCleanup, h)
  {
    features := [];
    var i := 0;
    while i < |specs|
      invariant 0 <= i <= |specs|
      invariant features == FeaturesAt(fs.root, specs[..i], performCleanup, h)
    {
      var feature := BuildFeature(fs, specs[i], performCleanup, h);
      MapStep(specs, Assemble(fs.root, performCleanup, h), i);
      features := features + [feature];
      i := i + 1;
    }
    assert specs[..i] == specs;
  }

  /** One pass of the loop of step 2: the feature of one record. */
  method BuildFeature(fs: FileSystem, spec: SpecMetadata, performCleanup: bool, h: Heuristics) returns (feature: Feature)
    ensures feature == FeatureAt(fs.root, spec, performCleanup, h)
  {
    var title := spec.name;
    var description := "";
    if spec.requirementsFile.Some? {
      var reqData := ParseRequirements(fs.ReadFile([spec.name, spec.requirementsFile.value]), h);
      title, description := reqData.0, reqData.1;
    }
    var implementationLink := "";
    if spec.implementationFile.Some? {
      if performCleanup {
        implementationLink := "./.archive/latest/" + spec.name + "/implementation-plan.md";
      } else {
        implementationLink := "./" + spec.name + "/implementation-plan.md";
      }
    } else {
      implementationLink := "./" + spec.name + "/";
    }
    feature := Feature(title, description, NotStarted, spec.category, 0, 0, 0, None, None, None, implementationLink, []);
    if spec.implementationFile.Some? {
      var planData := ParseImplementationPlan(fs.ReadFile([spec.name, spec.implementationFile.value]), h);
      var facts := planData.0;
      feature := feature.(status := facts.status, completionPercentage := facts.completionPercentage,
                          tasksTotal := facts.tasksTotal, tasksCompleted := facts.tasksCompleted,
                          effortEstimate := facts.effortEstimate, targetDate := facts.targetDate,
                          priority := facts.priority, features := planData.1);
    }
  }

  /** The assembled features never have more ticked tasks than tasks, so every percentage is at most 100. */
  lemma AssembledConsistent(root: Node, specs: seq<SpecMetadata>, performCleanup: bool, h: Heuristics)
    ensures Consistent(FeaturesAt(root, specs, performCleanup, h))
    ensures ReportOf(FeaturesAt(root, specs, performCleanup, h)).completionPercentage <= 100
  {
    var features := FeaturesAt(root, specs, performCleanup, h);
    forall i | 0 <= i < |features|
      ensures features[i].tasksCompleted <= features[i].tasksTotal
    {
      var f := FeatureAt(root, specs[i], performCleanup, h);
    }
  }

  // ---------------------------------------------------------------------------
  // Steps 7 to 11: archive, validate, clean up, roll back

  const ArchiveFailed := "Failed to create archive"
  const ArchiveInvalid := "Archive validation failed"
  const RollbackFailed := "Cleanup failed and rollback unsuccessful"
  const RollbackSucceeded := "Cleanup partially failed, rollback successful"

  /** Two trees that agree on a top-level name agree on every path under it. */
  lemma SameUnder(r1: Node, r2: Node, p: Path)
    requires |p| >= 1 && Child(r1, p[0]) == Child(r2, p[0])
    ensures Lookup(r1, p) == Lookup(r2, p)
  {
  }

  /**
   * Steps 10 and 11: remove the spec folders and, when any removal failed,
   * copy the archived folders back. `archived` is the result so far. Only
   * spec folders can lose content, a name can only come back through the
   * rollback, and a successful rollback leaves every spec folder present
   * again, provided the archive holds each of them as a directory.
   */
  method CleanUp(fs: FileSystem, specs: seq<SpecMetadata>, stamp: string, archived: PluginResult) returns (result: PluginResult)
    requires fs.Valid() && stamp != "" && ArchivableNames(specs) && archived.error.None?
    modifies fs
    ensures fs.Valid()
    ensures Lookup(fs.root, ArchivePath(stamp)) == old(Lookup(fs.root, ArchivePath(stamp)))
    ensures result.cleanupSucceeded <==> result.foldersRemoved == |specs|
    ensures result.foldersRemoved <= |specs|
    ensures result.cleanupSucceeded ==>
              result == archived.(foldersRemoved := |specs|, cleanupSucceeded := true)
              && forall k :: 0 <= k < |specs| ==> Child(fs.root, specs[k].name).None?
    ensures !result.cleanupSucceeded ==>
              && result == archived.(foldersRemoved := result.foldersRemoved, cleanupSucceeded := false, rollbackPerformed := true, success := false, error := result.error)
              && (result.error == Some(RollbackFailed) || result.error == Some(RollbackSucceeded))
    ensures forall a :: old(Child(fs.root, a)).Some? && Child(fs.root, a) != old(Child(fs.root, a)) ==> a in Types.Names(specs)
    ensures forall a :: old(Child(fs.root, a)).None? && Child(fs.root, a).Some? ==> !result.cleanupSucceeded
    ensures result.error == Some(RollbackSucceeded) && old(forall k :: 0 <= k < |specs| ==> ArchivedFolder(fs.root, ArchivePath(stamp), specs[k].name)) ==>
              forall k :: 0 <= k < |specs| ==> Child(fs.root, specs[k].name).Some?
  {
    ghost var root0 := fs.root;
    var removed, errors, failed := CleanupSpecFolders(fs, specs);
    ghost var root1 := fs.root;
    assert ArchiveDir !in Types.Names(specs);
    result := archived.(foldersRemoved := removed, cleanupSucceeded := |errors| == 0);
    if |errors| > 0 {
      var rollbackSuccess := RollbackCleanup(fs, stamp);
      result := result.(rollbackPerformed := true, success := false);
      if !rollbackSuccess {
        result := result.(error := Some(RollbackFailed));
      } else {
        result := result.(error := Some(RollbackSucceeded));
        RestoredFolders(root0, root1, fs.root, specs, stamp);
      }
    }
    SameUnder(root0, root1, ArchivePath(stamp));
  }

  /** Every record names a folder (a directory) at the top level. */
  ghost predicate SpecFolders(root: Node, specs: seq<SpecMetadata>) {
    forall k :: 0 <= k < |specs| ==> Lookup(root, [specs[k].name]).Some? && IsDirectory(Lookup(root, [specs[k].name]).value)
  }

  /**
   * What the scan hands to steps 7 to 11 suits them: distinct, non-empty
   * names other than `.archive` (a hidden name the scan skips), each the
   * name of a folder of the specs directory.
   */
  lemma ScannedSpecs(root: Node, exclude: seq<string>)
    requires root.Dir? && WellFormed(root)
    ensures ArchivableNames(Scan(root.entries, exclude)) && SpecFolders(root, Scan(root.entries, exclude))
  {
    var specs := Scan(root.entries, exclude);
    ScanNames(root.entries, exclude);
    ScanSkips(root.entries, exclude);
    assert StartsWith(ArchiveDir, ".");
    ScanRecords(root.entries, exclude);
    forall k | 0 <= k < |specs|
      ensures Lookup(root, [specs[k].name]).Some? && IsDirectory(Lookup(root, [specs[k].name]).value)
    {
      var i :| 0 <= i < |root.entries| && IsDirectory(root.entries[i].node) && specs[k] == Record(root.entries[i]);
      LookupTopLevel(root, i);
    }
  }

  /**
   * Steps 7 to 11 of `updateAppSpecs` for a run with cleanup, given the
   * statistics of step 3. `reached` says whether the folders were touched
   * (the archive was made). The key safety property: a spec folder whose
   * content changed, outside `.archive`, is one of the scanned folders, and
   * the archive holds a copy of it, identical to the original when the
   * archive directory was new. Step 1 returns before this when nothing was
   * found, so there is at least one folder.
   */
  method ArchiveAndCleanup(fs: FileSystem, specs: seq<SpecMetadata>, stamp: string, isoTime: string,
                           json: Manifest -> string, report: Report) returns (result: PluginResult, ghost reached: bool)
    requires fs.Valid() && stamp != "" && ArchivableNames(specs) && |specs| > 0
    modifies fs
    ensures fs.Valid()
    ensures result.report == report
    ensures !reached ==>
              && result == PluginResult(false, report, None, 0, 0, false, false, Some(ArchiveFailed))
              && forall a :: a != ArchiveDir ==> Child(fs.root, a) == old(Child(fs.root, a))
    ensures reached ==> result.archivePath == Some(ArchivePath(stamp)) && result.foldersArchived == |specs|
    ensures reached ==> (result.cleanupSucceeded <==> result.foldersRemoved == |specs|) && result.foldersRemoved <= |specs|
    ensures reached && result.cleanupSucceeded ==>
              && result == PluginResult(true, report, Some(ArchivePath(stamp)), |specs|, |specs|, true, false, None)
              && forall k :: 0 <= k < |specs| ==> Child(fs.root, specs[k].name).None?
    ensures reached && !result.cleanupSucceeded ==>
              && result == PluginResult(false, report, Some(ArchivePath(stamp)), |specs|, result.foldersRemoved, false, true, result.error)
              && (result.error == Some(RollbackFailed) || result.error == Some(RollbackSucceeded))
    ensures forall a :: a != ArchiveDir && old(Child(fs.root, a)).Some? && Child(fs.root, a) != old(Child(fs.root, a)) ==>
              && reached && a in Types.Names(specs) && Exists(fs.root, ArchivePath(stamp) + [a])
              && (old(!Exists(fs.root, ArchivePath(stamp))) ==> Lookup(fs.root, ArchivePath(stamp) + [a]) == old(Child(fs.root, a)))
    ensures forall a :: a != ArchiveDir && old(Child(fs.root, a)).None? && Child(fs.root, a).Some? ==> reached && result.rollbackPerformed
    ensures reached && result.error == Some(RollbackSucceeded) && old(!Exists(fs.root, ArchivePath(stamp)) && SpecFolders(fs.root, specs)) ==>
              forall k :: 0 <= k < |specs| ==> Child(fs.root, specs[k].name).Some?
  {
    ghost var root0 := fs.root;
    var base := PluginResult(true, report, None, 0, 0, false, false, None);
    var archivePath := ArchiveSpecFolders(fs, specs, stamp, isoTime, json);
    if archivePath.None? {
      result, reached := base.(success := false, error := Some(ArchiveFailed)), false;
      return;
    }
    ghost var root1 := fs.root;
    result := base.(archivePath := archivePath, foldersArchived := |specs|);
    ArchiveExists(root1, specs, archivePath.value);
    var archiveValid, missing := ValidateArchive(fs, archivePath.value, specs);
    if !archiveValid {
      // Not reachable: the archive just made holds every folder.
      assert false;
      result, reached := result.(success := false, error := Some(ArchiveInvalid)), true;
      return;
    }
    if !Exists(root0, archivePath.value) && SpecFolders(root0, specs) {
      assert forall k :: 0 <= k < |specs| ==> ArchivedFolder(root1, archivePath.value, specs[k].name);
    }
    result := CleanUp(fs, specs, stamp, result);
    reached := true;
    ArchiveSafety(root0, root1, fs.root, specs, stamp);
  }

  /** An archive that holds a folder exists. */
  lemma ArchiveExists(root: Node, specs: seq<SpecMetadata>, ap: Path)
    requires |specs| > 0 && forall k :: 0 <= k < |specs| ==> Exists(root, ap + [specs[k].name])
    ensures Exists(root, ap)
  {
    LookupAppend(root, ap, [specs[0].name]);
  }

  /**
   * The safety property of steps 7 to 11: `root1` is the tree after
   * archiving, `root2` after cleaning up.
   */
  lemma ArchiveSafety(root0: Node, root1: Node, root2: Node, specs: seq<SpecMetadata>, stamp: string)
    requires forall a :: a != ArchiveDir ==> Child(root1, a) == Child(root0, a)
    requires forall k :: 0 <= k < |specs| ==> Exists(root1, ArchivePath(stamp) + [specs[k].name])
    requires !Exists(root0, ArchivePath(stamp)) ==>
               forall k :: 0 <= k < |specs| ==> Lookup(root1, ArchivePath(stamp) + [specs[k].name]) == Lookup(root0, [specs[k].name])
    requires Lookup(root2, ArchivePath(stamp)) == Lookup(root1, ArchivePath(stamp))
    requires forall a :: Child(root1, a).Some? && Child(root2, a) != Child(root1, a) ==> a in Types.Names(specs)
    ensures forall a :: a != ArchiveDir && Child(root0, a).Some? && Child(root2, a) != Child(root0, a) ==>
              && a in Types.Names(specs) && Exists(root2, ArchivePath(stamp) + [a])
              && (!Exists(root0, ArchivePath(stamp)) ==> Lookup(root2, ArchivePath(stamp) + [a]) == Child(root0, a))
  {
    forall a | a != ArchiveDir && Child(root0, a).Some? && Child(root2, a) != Child(root0, a)
      ensures a in Types.Names(specs) && Exists(root2, ArchivePath(stamp) + [a])
      ensures !Exists(root0, ArchivePath(stamp)) ==> Lookup(root2, ArchivePath(stamp) + [a]) == Child(root0, a)
    {
      var k :| 0 <= k < |specs| && Types.Names(specs)[k] == a;
      LookupAppend(root1, ArchivePath(stamp), [a]);
      LookupAppend(root2, ArchivePath(stamp), [a]);
      LookupChild(root0, a);
    }
  }

  /** After a successful rollback, every spec folder the archive holds as a directory is present. */
  lemma RestoredFolders(root0: Node, root1: Node, root2: Node, specs: seq<SpecMetadata>, stamp: string)
    requires Child(root1, ArchiveDir) == Child(root0, ArchiveDir)
    requires forall a :: Child(root1, a).Some? ==> Child(root2, a) == Child(root1, a)
    requires forall a :: Child(root1, a).None? && ArchivedFolder(root1, ArchivePath(stamp), a) ==>
               Child(root2, a) == Lookup(root1, ArchivePath(stamp) + [a])
    ensures (forall k :: 0 <= k < |specs| ==> ArchivedFolder(root0, ArchivePath(stamp), specs[k].name)) ==>
              forall k :: 0 <= k < |specs| ==> Child(root2, specs[k].name).Some?
  {
    forall k | 0 <= k < |specs| && ArchivedFolder(root0, ArchivePath(stamp), specs[k].name)
      ensures Child(root2, specs[k].name).Some?
    {
      SameUnder(root0, root1, ArchivePath(stamp) + [specs[k].name]);
    }
  }


  // ---------------------------------------------------------------------------
  // The orchestrator

  const NoSpecs := "No spec folders found"
  const DocumentInvalid := "Generated document validation failed"

  /**
   * `updateAppSpecs(specsDir, performCleanup)`. The document renderer is
   * `render`, the validator's verdict on the written document is
   * `documentValid`, the archive folder name is `stamp` and the manifest
   * timestamp `isoTime`; `fault` is the message of the error the write
   * throws when it fails, which the `catch` turns into the result.
   *
   * The ghost results: `specs` are the scanned records, `features` the
   * assembled features, `written` says the document reached `app-specs.md`,
   * and `cleanupReached` that steps 7 to 11 touched the folders.
   */
  method UpdateAppSpecs(fs: FileSystem, performCleanup: bool, stamp: string, isoTime: string, h: Heuristics,
                        render: (seq<Feature>, Report) -> string, documentValid: bool, json: Manifest -> string, fault: string)
    returns (result: PluginResult, ghost specs: seq<SpecMetadata>, ghost features: seq<Feature>,
             ghost written: bool, ghost cleanupReached: bool)
    requires fs.Valid() && stamp != ""
    modifies fs
    ensures fs.Valid()
    ensures specs == Scan(old(fs.root).entries, DefaultExclude)
    // Step 1: nothing found, nothing touched.
    ensures specs == [] ==> result == PluginResult(false, EmptyReport, None, 0, 0, false, false, Some(NoSpecs)) && fs.root == old(fs.root)
    // Step 5 threw: the catch result.
    ensures specs != [] && !written ==> result == PluginResult(false, EmptyReport, None, 0, 0, false, false, Some(fault))
    // The document on disk and the statistics.
    ensures written ==> specs != [] && result.report == ReportOf(features)
    ensures written ==> fs.ReadFile([OutputName]) == Some(render(features, ReportOf(features)))
    // Step 6 and the run without cleanup.
    ensures written && !documentValid ==> result == PluginResult(false, ReportOf(features), None, 0, 0, false, false, Some(DocumentInvalid))
    ensures written && documentValid && !performCleanup ==> result == PluginResult(true, ReportOf(features), None, 0, 0, false, false, None)
    // The gate of steps 7 to 11.
    ensures cleanupReached ==> performCleanup && documentValid && written
    ensures !cleanupReached ==>
              && !result.cleanupSucceeded && !result.rollbackPerformed && result.foldersRemoved == 0
              && forall a :: a != ArchiveDir && a != TempName && a != OutputName ==> Child(fs.root, a) == old(Child(fs.root, a))
    // The result flags.
    ensures result.archivePath.Some? <==> cleanupReached
    ensures cleanupReached ==> result.archivePath == Some(ArchivePath(stamp)) && result.foldersArchived == |specs|
    ensures result.success ==> written && result.error.None? && (result.cleanupSucceeded <==> performCleanup)
    ensures result.cleanupSucceeded ==>
              result.success && result.foldersRemoved == |specs| && forall k :: 0 <= k < |specs| ==> Child(fs.root, specs[k].name).None?
    ensures result.rollbackPerformed <==> cleanupReached && !result.cleanupSucceeded
    ensures result.rollbackPerformed ==>
              && !result.success && result.foldersRemoved < |specs|
              && (result.error == Some(RollbackFailed) || result.error == Some(RollbackSucceeded))
    // No folder loses content unless the archive holds a copy of it.
    ensures forall a :: a != ArchiveDir && a != TempName && a != OutputName && old(Child(fs.root, a)).Some? && Child(fs.root, a) != old(Child(fs.root, a)) ==>
              && cleanupReached && a in Types.Names(specs) && Exists(fs.root, ArchivePath(stamp) + [a])
              && (old(!Exists(fs.root, ArchivePath(stamp))) ==> Lookup(fs.root, ArchivePath(stamp) + [a]) == old(Child(fs.root, a)))
    // A successful rollback from a fresh archive brings every folder back.
    ensures result.rollbackPerformed && result.error == Some(RollbackSucceeded) && old(!Exists(fs.root, ArchivePath(stamp))) ==>
              forall k :: 0 <= k < |specs| ==> Child(fs.root, specs[k].name).Some?
    ensures features == FeaturesAt(old(fs.root), specs, performCleanup, h)
  {
    ghost var root0 := fs.root;
    var allSpecs := ScanSpecsDirectory(fs, DefaultExclude);
    specs, features, written, cleanupReached := allSpecs, FeaturesAt(root0, allSpecs, performCleanup, h), false, false;
    if |allSpecs| == 0 {
      result := PluginResult(false, EmptyReport, None, 0, 0, false, false, Some(NoSpecs));
      return;
    }
    var allFeatures := CollectFeatures(fs, allSpecs, performCleanup, h);
    var report := AggregateStatistics(allFeatures);
    var markdown := render(allFeatures, report);
    ScannedSpecs(root0, DefaultExclude);
    result, written, cleanupReached := Publish(fs, allSpecs, report, markdown, performCleanup, documentValid, stamp, isoTime, json, fault);
  }

  /**
   * Steps 5 to 11 for the scanned records `specs` (at least one), the
   * statistics `report` and the rendered document `markdown`.
   */
  method Publish(fs: FileSystem, specs: seq<SpecMetadata>, report: Report, markdown: string, performCleanup: bool,
                 documentValid: bool, stamp: string, isoTime: string, json: Manifest -> string, fault: string)
    returns (result: PluginResult, ghost written: bool, ghost cleanupReached: bool)
    requires fs.Valid() && stamp != "" && ArchivableNames(specs) && SpecFolders(fs.root, specs) && |specs| > 0
    modifies fs
    ensures fs.Valid()
    // Step 5 threw: the catch result.
    ensures !written ==> result == PluginResult(false, EmptyReport, None, 0, 0, false, false, Some(fault))
    // The document on disk and the statistics.
    ensures written ==> result.report == report && fs.ReadFile([OutputName]) == Some(markdown)
    // Step 6 and the run without cleanup.
    ensures written && !documentValid ==> result == PluginResult(false, report, None, 0, 0, false, false, Some(DocumentInvalid))
    ensures written && documentValid && !performCleanup ==> result == PluginResult(true, report, None, 0, 0, false, false, None)
    // The gate of steps 7 to 11.
    ensures cleanupReached ==> performCleanup && documentValid && written
    ensures !cleanupReached ==>
              && !result.cleanupSucceeded && !result.rollbackPerformed && result.foldersRemoved == 0
              && forall a :: a != ArchiveDir && a != TempName && a != OutputName ==> Child(fs.root, a) == old(Child(fs.root, a))
    // The result flags.
    ensures result.archivePath.Some? <==> cleanupReached
    ensures cleanupReached ==> result.archivePath == Some(ArchivePath(stamp)) && result.foldersArchived == |specs|
    ensures result.success ==> written && result.error.None? && (result.cleanupSucceeded <==> performCleanup)
    ensures result.cleanupSucceeded ==>
              result.success && result.foldersRemoved == |specs| && forall k :: 0 <= k < |specs| ==> Child(fs.root, specs[k].name).None?
    ensures result.rollbackPerformed <==> cleanupReached && !result.cleanupSucceeded
    ensures result.rollbackPerformed ==>
              && !result.success && result.foldersRemoved < |specs|
              && (result.error == Some(RollbackFailed) || result.error == Some(RollbackSucceeded))
    // No folder loses content unless the archive holds a copy of it.
    ensures forall a :: a != ArchiveDir && a != TempName && a != OutputName && old(Child(fs.root, a)).Some? && Child(fs.root, a) != old(Child(fs.root, a)) ==>
              && cleanupReached && a in Types.Names(specs) && Exists(fs.root, ArchivePath(stamp) + [a])
              && (old(!Exists(fs.root, ArchivePath(stamp))) ==> Lookup(fs.root, ArchivePath(stamp) + [a]) == old(Child(fs.root, a)))
    // A successful rollback from a fresh archive brings every folder back.
    ensures result.rollbackPerformed && result.error == Some(RollbackSucceeded) && old(!Exists(fs.root, ArchivePath(stamp))) ==>
              forall k :: 0 <= k < |specs| ==> Child(fs.root, specs[k].name).Some?
  {
    ghost var root0 := fs.root;
    written, cleanupReached := false, false;
    var base := PluginResult(true, report, None, 0, 0, false, false, None);
    var ok := WriteOutput(fs, markdown);
    if !ok {
      result := PluginResult(false, EmptyReport, None, 0, 0, false, false, Some(fault));
      return;
    }
    written := true;
    if !documentValid {
      result := base.(success := false, error := Some(DocumentInvalid));
      return;
    }
    if !performCleanup {
      result := base;
      return;
    }
    ghost var root1 := fs.root;
    OutputNotSpec(root0, root1, specs);
    result, cleanupReached := ArchiveAndCleanup(fs, specs, stamp, isoTime, json, report);
    OutputKept(root1, fs.root, specs, markdown);
    SameUnder(root0, root1, ArchivePath(stamp));
  }

  /**
   * The write of step 5 leaves the spec folders as they were: neither the
   * document nor its temporary file can have been a folder, since writing
   * over a directory fails.
   */
  lemma OutputNotSpec(root0: Node, root1: Node, specs: seq<SpecMetadata>)
    requires SpecFolders(root0, specs)
    requires Child(root0, OutputName).None? || Child(root0, OutputName).value.File?
    requires Child(root0, TempName).None? || Child(root0, TempName).value.File?
    requires forall a :: a != TempName && a != OutputName ==> Child(root1, a) == Child(root0, a)
    ensures OutputName !in Types.Names(specs) && TempName !in Types.Names(specs)
    ensures SpecFolders(root1, specs)
  {
    LookupChild(root0, OutputName);
    LookupChild(root0, TempName);
    forall k | 0 <= k < |specs|
      ensures specs[k].name != OutputName && specs[k].name != TempName
      ensures Lookup(root1, [specs[k].name]) == Lookup(root0, [specs[k].name])
    {
      LookupChild(root0, specs[k].name);
      LookupChild(root1, specs[k].name);
    }
  }

  /** Steps 7 to 11 leave the written document in place. */
  lemma OutputKept(root1: Node, root2: Node, specs: seq<SpecMetadata>, markdown: string)
    requires OutputName !in Types.Names(specs) && FileAt(root1, [OutputName]) == Some(markdown)
    requires forall a :: a != ArchiveDir && Child(root1, a).Some? && Child(root2, a) != Child(root1, a) ==> a in Types.Names(specs)
    ensures FileAt(root2, [OutputName]) == Some(markdown)
  {
    LookupChild(root1, OutputName);
    LookupChild(root2, OutputName);
  }


  /**
   * `canSafelyCleanup(outputFile, archiveValid)`: `documentValid` is the
   * validator's verdict on the output file. Safe exactly when both checks
   * passed.
   */
  function CanSafelyCleanup(documentValid: bool, archiveValid: bool): (r: bool)
    ensures r <==> documentValid && archiveValid
  {
    if !documentValid then false
    else if !archiveValid then false
    else true
  }

}
