/**
 * The folder scan of the plugin copy: which entries of the specs directory
 * become spec records, how the markdown files of a folder are classified,
 * the category of a folder name, and the grouping of records by category.
 * The archive protocol of the same source file is in `PluginArchive`.
 */
module PluginScanner {
  import opened Types
  import opened Text
  import opened Tree
  import opened Fs
  import opened Rules
  import opened Collections

  /** The default of `excludeFolders`. */
  const DefaultExclude: seq<string> := ["doc-generator"]

  // ---------------------------------------------------------------------------
  // Categories

  /** The keyword rules of `inferCategory`, Foundation first. */
  const CategoryRules: seq<Rule> := [
    Rule("Foundation", ["auth", "workspace", "database"], []),
    Rule("GitHub Integration", ["github", "git"], []),
    Rule("Project Management", ["project", "kanban", "issue", "task"], []),
    Rule("Community Features", ["community", "feature-request", "bug-report", "upvote"], []),
    Rule("Analytics & Monitoring", ["analytic", "monitor", "dashboard", "metric"], []),
    Rule("UX Enhancements", ["ux", "ui", "enhancement", "dark-mode", "tooltip"], []),
    Rule("Performance", ["performance", "optimization", "cache", "pagination"], []),
    Rule("Learning Resources", ["tutorial", "learning", "documentation", "guide"], []),
    Rule("Developer Tools", ["cli", "command", "tool", "generator"], []),
    Rule("Notifications", ["notification", "email", "alert"], [])
  ]

  /** `inferCategory`: the first rule with a keyword in the lower-cased name, else `Other`. */
  function InferCategory(folderName: string): string {
    Classify(CategoryRules, Lower(folderName))
  }

  lemma CategoryRulesDistinct()
    ensures DistinctCategories(CategoryRules)
  {
    DistinctByLetters(CategoryRules, 0, 1);
  }

  /** A folder name gets the category of rule `j` exactly when rule `j` is the first whose keyword occurs in it. */
  lemma InferCategoryFirstMatch(folderName: string, j: nat)
    requires j < |CategoryRules|
    ensures InferCategory(folderName) == CategoryRules[j].category <==>
            Applies(CategoryRules[j], Lower(folderName)) && forall i :: 0 <= i < j ==> !Applies(CategoryRules[i], Lower(folderName))
  {
    CategoryRulesDistinct();
    ClassifyCategory(CategoryRules, Lower(folderName), j);
  }

  /** With no keyword of any rule in it, a name falls through to `Other`. */
  lemma InferCategoryOther(folderName: string)
    ensures InferCategory(folderName) == "Other" <==> forall i :: 0 <= i < |CategoryRules| ==> !Applies(CategoryRules[i], Lower(folderName))
  {
    CategoryRulesDistinct();
    ClassifyOther(CategoryRules, Lower(folderName));
  }

  /**
   * `guide` contains `ui`, so the UX rule, which is tested first, takes every
   * name with `guide` in it: the keyword `guide` of Learning Resources never
   * decides a category.
   */
  lemma GuideIsNeverLearning(folderName: string)
    requires Contains(Lower(folderName), "guide")
    ensures InferCategory(folderName) != "Learning Resources"
  {
    var low := Lower(folderName);
    assert "g" + "ui" + "de" == "guide";
    ContainsInfix(low, "g", "ui", "de");
    UxApplies(low);
    InferCategoryFirstMatch(folderName, 7);
  }

  lemma UxApplies(low: string)
    requires Contains(low, "ui")
    ensures Applies(CategoryRules[5], low)
  {
    var words := CategoryRules[5].anyOf;
    assert words[1] == "ui";
    ContainsAnyIff(low, words);
  }

  // ---------------------------------------------------------------------------
  // The files of a spec folder

  /** The file names `findImplementationFiles` collects, relative to the folder. */
  datatype SpecFiles = SpecFiles(requirements: Option<string>, implementation: Option<string>, supplementary: seq<string>)

  const NoFiles := SpecFiles(None, None, [])

  /** A regular file (as `statSync` sees it) whose name ends in `.md`. */
  predicate IsMarkdown(e: Entry) {
    IsRegularFile(e.node) && EndsWith(e.name, ".md")
  }

  predicate IsRequirements(e: Entry) {
    IsMarkdown(e) && Lower(e.name) == "requirements.md"
  }

  predicate IsImplementation(e: Entry) {
    IsMarkdown(e) && (Lower(e.name) == "implementation-plan.md" || Lower(e.name) == "implementation_plan.md")
  }

  predicate IsSupplementary(e: Entry) {
    IsMarkdown(e) && !IsRequirements(e) && !IsImplementation(e)
  }

  /** One turn of the loop of `findImplementationFiles`. */
  function FileStep(acc: SpecFiles, e: Entry): SpecFiles {
    if !IsMarkdown(e) then acc
    else if IsRequirements(e) then acc.(requirements := Some(e.name))
    else if IsImplementation(e) then acc.(implementation := Some(e.name))
    else acc.(supplementary := acc.supplementary + [e.name])
  }

  /** What the loop of `findImplementationFiles` leaves after a listing. */
  function ClassifyFiles(es: seq<Entry>): SpecFiles {
    if es == [] then NoFiles else FileStep(ClassifyFiles(es[..|es| - 1]), es[|es| - 1])
  }

  lemma ClassifyStep(es: seq<Entry>, i: nat)
    requires i < |es|
    ensures ClassifyFiles(es[..i + 1]) == FileStep(ClassifyFiles(es[..i]), es[i])
  {
    assert es[..i + 1][..i] == es[..i];
  }

  /** The requirements file is the last `requirements.md` of the listing, in any case, and absent when there is none. */
  lemma {:induction false} ClassifyRequirements(es: seq<Entry>)
    ensures ClassifyFiles(es).requirements.None? <==> forall i :: 0 <= i < |es| ==> !IsRequirements(es[i])
    ensures ClassifyFiles(es).requirements.Some? ==>
              exists i :: 0 <= i < |es| && IsRequirements(es[i]) && ClassifyFiles(es).requirements == Some(es[i].name) &&
                          forall j :: i < j < |es| ==> !IsRequirements(es[j])
  {
    if es != [] {
      var init := es[..|es| - 1];
      var e := es[|es| - 1];
      ClassifyRequirements(init);
      assert forall i :: 0 <= i < |init| ==> init[i] == es[i];
      var r0 := ClassifyFiles(init);
      var r := ClassifyFiles(es);
      if IsRequirements(e) {
        assert r.requirements == Some(e.name);
      } else {
        assert r.requirements == r0.requirements;
        if r.requirements.Some? {
          var i :| 0 <= i < |init| && IsRequirements(init[i]) && r0.requirements == Some(init[i].name) &&
                   forall j :: i < j < |init| ==> !IsRequirements(init[j]);
          assert IsRequirements(es[i]) && forall j :: i < j < |es| ==> !IsRequirements(es[j]);
        }
      }
    }
  }

  /** The implementation file is the last `implementation-plan.md` or `implementation_plan.md`, in any case. */
  lemma {:induction false} ClassifyImplementation(es: seq<Entry>)
    ensures ClassifyFiles(es).implementation.None? <==> forall i :: 0 <= i < |es| ==> !IsImplementation(es[i])
    ensures ClassifyFiles(es).implementation.Some? ==>
              exists i :: 0 <= i < |es| && IsImplementation(es[i]) && ClassifyFiles(es).implementation == Some(es[i].name) &&
                          forall j :: i < j < |es| ==> !IsImplementation(es[j])
  {
    if es != [] {
      var init := es[..|es| - 1];
      var e := es[|es| - 1];
      ClassifyImplementation(init);
      assert forall i :: 0 <= i < |init| ==> init[i] == es[i];
      var r0 := ClassifyFiles(init);
      var r := ClassifyFiles(es);
      if IsImplementation(e) {
        assert !IsRequirements(e);
        assert r.implementation == Some(e.name);
      } else {
        assert r.implementation == r0.implementation;
        if r.implementation.Some? {
          var i :| 0 <= i < |init| && IsImplementation(init[i]) && r0.implementation == Some(init[i].name) &&
                   forall j :: i < j < |init| ==> !IsImplementation(init[j]);
          assert IsImplementation(es[i]) && forall j :: i < j < |es| ==> !IsImplementation(es[j]);
        }
      }
    }
  }

  /** The supplementary files are the other markdown files, in listing order; nothing else is collected. */
  lemma {:induction false} ClassifySupplementary(es: seq<Entry>)
    ensures ClassifyFiles(es).supplementary == Tree.Names(Filter(es, IsSupplementary))
  {
    if es != [] {
      var init := es[..|es| - 1];
      var e := es[|es| - 1];
      ClassifySupplementary(init);
      EntryNamesSnoc(Filter(init, IsSupplementary), e);
    }
  }

  lemma EntryNamesSnoc(es: seq<Entry>, e: Entry)
    ensures Tree.Names(es + [e]) == Tree.Names(es) + [e.name]
  {
    assert |Tree.Names(es + [e])| == |Tree.Names(es) + [e.name]|;
  }

  /** The files of a folder node: its listing classified, or nothing when it cannot be listed. */
  function FolderFiles(n: Node): SpecFiles {
    match n
    case Dir(es) => ClassifyFiles(es)
    case _ => NoFiles
  }

  /**
   * `findImplementationFiles(path.join(specsDir, dir))`. A folder that cannot
   * be listed leaves the result empty: the `catch` swallows the error.
   */
  method FindImplementationFiles(fs: FileSystem, dir: string) returns (files: SpecFiles)
    requires fs.Valid()
    ensures fs.ReadDir([dir]).None? ==> files == NoFiles
    ensures fs.ReadDir([dir]).Some? ==> files == ClassifyFiles(fs.ReadDir([dir]).value)
  {
    var requirements: Option<string> := None;
    var implementation: Option<string> := None;
    var supplementary: seq<string> := [];
    var listing := fs.ReadDir([dir]);
    if listing.None? {
      return SpecFiles(requirements, implementation, supplementary);
    }
    var es := listing.value;
    var i := 0;
    while i < |es|
      invariant 0 <= i <= |es|
      invariant SpecFiles(requirements, implementation, supplementary) == ClassifyFiles(es[..i])
    {
      ClassifyStep(es, i);
      var file := es[i];
      if IsRegularFile(file.node) && EndsWith(file.name, ".md") {
        var lowerFile := Lower(file.name);
        if lowerFile == "requirements.md" {
          requirements := Some(file.name);
        } else if lowerFile == "implementation-plan.md" || lowerFile == "implementation_plan.md" {
          implementation := Some(file.name);
        } else {
          supplementary := supplementary + [file.name];
        }
      }
      i := i + 1;
    }
    assert es[..|es|] == es;
    files := SpecFiles(requirements, implementation, supplementary);
  }

  // ---------------------------------------------------------------------------
  // The scan

  /** A directory entry the scan turns into a record: a directory, not excluded, not hidden. */
  predicate Scanned(e: Entry, exclude: seq<string>) {
    IsDirectory(e.node) && e.name !in exclude && !StartsWith(e.name, ".")
  }

  function ScannedBy(exclude: seq<string>): Entry -> bool {
    e => Scanned(e, exclude)
  }

  /** The record `scanSpecsDirectory` pushes for a folder entry. */
  function Record(e: Entry): SpecMetadata {
    var f := FolderFiles(e.node);
    SpecMetadata(e.name, InferCategory(e.name), f.requirements, f.implementation, f.supplementary)
  }

  /** What the scan loop has pushed after the entries `es`. */
  function Scan(es: seq<Entry>, exclude: seq<string>): seq<SpecMetadata> {
    if es == [] then []
    else Scan(es[..|es| - 1], exclude) + (if Scanned(es[|es| - 1], exclude) then [Record(es[|es| - 1])] else [])
  }

  lemma ScanStep(es: seq<Entry>, exclude: seq<string>, i: nat)
    requires i < |es|
    ensures Scan(es[..i + 1], exclude) == Scan(es[..i], exclude) + (if Scanned(es[i], exclude) then [Record(es[i])] else [])
  {
    assert es[..i + 1][..i] == es[..i];
  }

  /**
   * The scan against its meaning: the records of exactly the scanned
   * entries, in listing order. So every record is a directory, never an
   * excluded or hidden name, and names stay distinct.
   */
  lemma {:induction false} ScanIsFilter(es: seq<Entry>, exclude: seq<string>)
    ensures Scan(es, exclude) == Map(Filter(es, ScannedBy(exclude)), Record)
  {
    if es != [] {
      var init := es[..|es| - 1];
      var e := es[|es| - 1];
      ScanIsFilter(init, exclude);
      var f := Filter(init, ScannedBy(exclude));
      assert Filter(es, ScannedBy(exclude)) == f + (if Scanned(e, exclude) then [e] else []);
      if Scanned(e, exclude) {
        assert (f + [e])[..|f + [e]| - 1] == f;
      }
    }
  }

  /** No excluded or hidden name is ever returned. */
  lemma ScanSkips(es: seq<Entry>, exclude: seq<string>)
    ensures forall k :: 0 <= k < |Scan(es, exclude)| ==>
              Scan(es, exclude)[k].name !in exclude && !StartsWith(Scan(es, exclude)[k].name, ".")
  {
    ScanIsFilter(es, exclude);
    var p := ScannedBy(exclude);
    forall k | 0 <= k < |Scan(es, exclude)|
      ensures Scan(es, exclude)[k].name !in exclude && !StartsWith(Scan(es, exclude)[k].name, ".")
    {
      MapFilterFrom(es, p, Record, k);
      var i :| 0 <= i < |es| && p(es[i]) && Map(Filter(es, p), Record)[k] == Record(es[i]);
      assert Scanned(es[i], exclude);
    }
  }

  /** Every scanned entry has its record, and every record is that of a directory entry. */
  lemma ScanRecords(es: seq<Entry>, exclude: seq<string>)
    ensures forall i :: 0 <= i < |es| && Scanned(es[i], exclude) ==> Record(es[i]) in Scan(es, exclude)
    ensures forall k :: 0 <= k < |Scan(es, exclude)| ==>
              exists i :: 0 <= i < |es| && IsDirectory(es[i].node) && Scan(es, exclude)[k] == Record(es[i])
  {
    ScanIsFilter(es, exclude);
    var p := ScannedBy(exclude);
    forall i | 0 <= i < |es| && Scanned(es[i], exclude)
      ensures Record(es[i]) in Scan(es, exclude)
    {
      assert p(es[i]);
      MapFilterCovers(es, p, Record, i);
    }
    forall k | 0 <= k < |Scan(es, exclude)|
      ensures exists i :: 0 <= i < |es| && IsDirectory(es[i].node) && Scan(es, exclude)[k] == Record(es[i])
    {
      MapFilterFrom(es, p, Record, k);
      var i :| 0 <= i < |es| && p(es[i]) && Map(Filter(es, p), Record)[k] == Record(es[i]);
      assert Scanned(es[i], exclude);
    }
  }

  /** Every scanned name is a name of the listing. */
  lemma {:induction false} ScanNamesListed(es: seq<Entry>, exclude: seq<string>)
    ensures forall k :: 0 <= k < |Scan(es, exclude)| ==> Scan(es, exclude)[k].name in Tree.Names(es)
  {
    if es != [] {
      var init := es[..|es| - 1];
      ScanNamesListed(init, exclude);
      var s0 := Scan(init, exclude);
      var s := Scan(es, exclude);
      forall k | 0 <= k < |s|
        ensures s[k].name in Tree.Names(es)
      {
        if k < |s0| {
          var j :| 0 <= j < |init| && Tree.Names(init)[j] == s0[k].name;
          assert Tree.Names(es)[j] == s[k].name;
        } else {
          assert Tree.Names(es)[|es| - 1] == s[k].name;
        }
      }
    }
  }

  /** Scanned names are distinct and non-empty when the listing's are. */
  lemma {:induction false} ScanNames(es: seq<Entry>, exclude: seq<string>)
    requires UniqueNames(es)
    ensures Distinct(Types.Names(Scan(es, exclude)))
    ensures forall k :: 0 <= k < |Scan(es, exclude)| ==> Scan(es, exclude)[k].name != ""
  {
    if es != [] {
      var init := es[..|es| - 1];
      var e := es[|es| - 1];
      UniqueInit(es, init);
      ScanNames(init, exclude);
      ScanNamesListed(init, exclude);
      var s0 := Scan(init, exclude);
      if Scanned(e, exclude) {
        assert Scan(es, exclude) == s0 + [Record(e)];
        FreshName(s0, init, e.name);
        SpecNamesSnoc(s0, Record(e));
        DistinctSnoc(Types.Names(s0), e.name);
      } else {
        assert Scan(es, exclude) == s0;
      }
    }
  }

  /** Dropping the last entry keeps the names unique, and the last name is new among the others. */
  lemma UniqueInit(es: seq<Entry>, init: seq<Entry>)
    requires UniqueNames(es) && es != [] && init == es[..|es| - 1]
    ensures UniqueNames(init) && es[|es| - 1].name != ""
    ensures forall j :: 0 <= j < |init| ==> init[j].name != es[|es| - 1].name
  {
  }

  lemma FreshName(s0: seq<SpecMetadata>, init: seq<Entry>, x: string)
    requires forall k :: 0 <= k < |s0| ==> s0[k].name in Tree.Names(init)
    requires forall j :: 0 <= j < |init| ==> init[j].name != x
    ensures x !in Types.Names(s0)
  {
    forall k | 0 <= k < |s0|
      ensures Types.Names(s0)[k] != x
    {
      var j :| 0 <= j < |init| && Tree.Names(init)[j] == s0[k].name;
    }
  }

  lemma DistinctSnoc<T>(xs: seq<T>, x: T)
    requires Distinct(xs) && x !in xs
    ensures Distinct(xs + [x])
  {
  }

  /** The name of a top-level entry is the path of exactly that entry. */
  lemma LookupTopLevel(root: Node, i: nat)
    requires root.Dir? && UniqueNames(root.entries) && i < |root.entries|
    ensures Lookup(root, [root.entries[i].name]) == Some(root.entries[i].node)
  {
    FindUnique(root.entries, i);
    assert [root.entries[i].name][1..] == [];
  }

  /**
   * `scanSpecsDirectory(specsDir, excludeFolders)` over the specs directory.
   * The per-folder `try` never catches anything: the helpers it guards do
   * not throw.
   */
  method ScanSpecsDirectory(fs: FileSystem, excludeFolders: seq<string>) returns (specs: seq<SpecMetadata>)
    requires fs.Valid()
    ensures specs == Scan(fs.root.entries, excludeFolders)
  {
    specs := [];
    var entries := fs.root.entries;
    var i := 0;
    while i < |entries|
      invariant 0 <= i <= |entries|
      invariant specs == Scan(entries[..i], excludeFolders)
    {
      ScanStep(entries, excludeFolders, i);
      var dir := entries[i];
      if IsDirectory(dir.node) && dir.name !in excludeFolders && !StartsWith(dir.name, ".") {
        LookupTopLevel(fs.root, i);
        var files := FindImplementationFiles(fs, dir.name);
        var category := InferCategory(dir.name);
        specs := specs + [SpecMetadata(dir.name, category, files.requirements, files.implementation, files.supplementary)];
      }
      i := i + 1;
    }
    assert entries[..|entries|] == entries;
  }

  // ---------------------------------------------------------------------------
  // Grouping

  function CategoryOf(s: SpecMetadata): string {
    s.category
  }

  /**
   * `organizeByCategory`: one group per category, in the order categories
   * are first met, each holding exactly that category's records in order.
   * The perseon scanner's `organizeByCategory` is the same loop.
   */
  method OrganizeByCategory(specs: seq<SpecMetadata>) returns (byCategory: seq<(string, seq<SpecMetadata>)>)
    ensures byCategory == GroupBy(specs, CategoryOf)
    ensures DistinctKeys(byCategory)
    ensures forall i :: 0 <= i < |byCategory| ==> byCategory[i].1 == Bucket(specs, CategoryOf, byCategory[i].0) && byCategory[i].1 != []
    ensures forall c :: KeyIndex(byCategory, c) < |byCategory| <==> exists k :: 0 <= k < |specs| && specs[k].category == c
    ensures SumSizes(byCategory) == |specs|
  {
    byCategory := Group(specs, CategoryOf);
    GroupByIsGrouping(specs, CategoryOf);
    GroupByPartitions(specs, CategoryOf);
    forall c ensures KeyIndex(byCategory, c) < |byCategory| <==> exists k :: 0 <= k < |specs| && specs[k].category == c {
      if exists k :: 0 <= k < |specs| && specs[k].category == c {
        var k :| 0 <= k < |specs| && specs[k].category == c;
        assert CategoryOf(specs[k]) == c;
      }
    }
  }
}
