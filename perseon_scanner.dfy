/**
 * The folder scan of the perseon copy: which entries of the specs directory
 * become spec records, how the requirements and implementation files are
 * found among a folder's names, which names are supplementary, and the
 * category of a folder name (GitHub rule first). Unlike the plugin copy, the
 * scan does not skip hidden folders, drops a folder it cannot list, and
 * finds files by name whatever kind of object carries the name.
 */
module PerseonScanner {
  import opened Types
  import opened Text
  import opened Tree
  import opened Fs
  import opened Rules
  import opened Collections

  const ExcludeFolders: seq<string> := ["doc-generator", "doc-generator-system"]

  // ---------------------------------------------------------------------------
  // Categories

  /** The keyword rules of `inferCategory`, GitHub first. */
  const CategoryRules: seq<Rule> := [
    Rule("GitHub Integration", ["github", "git"], []),
    Rule("Community Features", ["community", "feedback", "activity"], []),
    Rule("Project Management", ["project", "kanban"], []),
    Rule("Analytics & Monitoring", ["analytics", "monitoring", "dashboard"], []),
    Rule("UX Enhancements", ["ux", "ui", "enhancement", "tooltip", "error"], []),
    Rule("Performance", ["performance", "optimization", "cache"], []),
    Rule("Learning Resources", ["learning", "tutorial", "doc"], []),
    Rule("Foundation", ["auth", "workspace", "database", "foundation"], []),
    Rule("Developer Tools", ["command", "cli"], []),
    Rule("Notifications", ["notification", "email"], [])
  ]

  /** `inferCategory`: the first rule with a keyword in the lower-cased name, else `Other`. */
  function InferCategory(folderName: string): string {
    Classify(CategoryRules, Lower(folderName))
  }

  lemma CategoryRulesDistinct()
    ensures DistinctCategories(CategoryRules)
  {
    DistinctByLetters(CategoryRules, 0, 1);
  }

  /** A folder name gets the category of rule `j` exactly when rule `j` is the first whose keyword occurs in it. */
  lemma InferCategoryFirstMatch(folderName: string, j: nat)
    requires j < |CategoryRules|
    ensures InferCategory(folderName) == CategoryRules[j].category <==>
            Applies(CategoryRules[j], Lower(folderName)) && forall i :: 0 <= i < j ==> !Applies(CategoryRules[i], Lower(folderName))
  {
    CategoryRulesDistinct();
    ClassifyCategory(CategoryRules, Lower(folderName), j);
  }

  /** With no keyword of any rule in it, a name falls through to `Other`. */
  lemma InferCategoryOther(folderName: string)
    ensures InferCategory(folderName) == "Other" <==> forall i :: 0 <= i < |CategoryRules| ==> !Applies(CategoryRules[i], Lower(folderName))
  {
    CategoryRulesDistinct();
    ClassifyOther(CategoryRules, Lower(folderName));
  }

  /** Any name with `git` in it, in any case, is filed under GitHub Integration (so `digital-wallet` too). */
  lemma GitIsGitHub(folderName: string)
    requires Contains(Lower(folderName), "git")
    ensures InferCategory(folderName) == "GitHub Integration"
  {
    var words := CategoryRules[0].anyOf;
    assert words[1] == "git";
    ContainsAnyIff(Lower(folderName), words);
    InferCategoryFirstMatch(folderName, 0);
  }

  // ---------------------------------------------------------------------------
  // Finding files by name

  const RequirementsAliases: seq<string> := ["requirements.md", "REQUIREMENTS.md"]
  const ImplementationAliases: seq<string> := ["implementation-plan.md", "IMPLEMENTATION_PLAN.md", "implementation.md", "IMPLEMENTATION.md"]

  /** The position of the first name equal to `name` ignoring case, or `|files|`. */
  function FirstNamed(files: seq<string>, name: string): (k: nat)
    ensures k <= |files|
    ensures k < |files| ==> Lower(files[k]) == Lower(name)
    ensures forall j :: 0 <= j < k ==> Lower(files[j]) != Lower(name)
  {
    if files == [] then 0
    else if Lower(files[0]) == Lower(name) then 0
    else 1 + FirstNamed(files[1..], name)
  }

  /** `files.find(file => file.toLowerCase() === name.toLowerCase())`. */
  function FindName(files: seq<string>, name: string): (r: Option<string>)
    ensures r.None? <==> forall i :: 0 <= i < |files| ==> Lower(files[i]) != Lower(name)
    ensures r.Some? ==> r.value in files && Lower(r.value) == Lower(name)
  {
    var k := FirstNamed(files, name);
    if k < |files| then Some(files[k]) else None
  }

  /** The position of the first alias that names a file, or `|aliases|`. */
  function FirstFound(files: seq<string>, aliases: seq<string>): (k: nat)
    ensures k <= |aliases|
    ensures k < |aliases| ==> FindName(files, aliases[k]).Some?
    ensures forall j :: 0 <= j < k ==> FindName(files, aliases[j]).None?
  {
    if aliases == [] then 0
    else if FindName(files, aliases[0]).Some? then 0
    else 1 + FirstFound(files, aliases[1..])
  }

  /** What `findFile` returns: the match of the first alias that has one. */
  function FirstAlias(files: seq<string>, aliases: seq<string>): Option<string> {
    var k := FirstFound(files, aliases);
    if k < |aliases| then FindName(files, aliases[k]) else None
  }

  /**
   * `findFile` over a folder's names: the aliases are tried in order and
   * the first name that equals one, ignoring case, is returned.
   */
  method FindFile(files: seq<string>, possibleNames: seq<string>) returns (found: Option<string>)
    ensures found == FirstAlias(files, possibleNames)
  {
    var i := 0;
    while i < |possibleNames|
      invariant 0 <= i <= |possibleNames|
      invariant forall j :: 0 <= j < i ==> FindName(files, possibleNames[j]).None?
    {
      var match_ := FindName(files, possibleNames[i]);
      if match_.Some? {
        return match_;
      }
      i := i + 1;
    }
    return None;
  }

  /** The aliases lower-cased, as `findFile` compares them. */
  lemma RequirementsLowered()
    ensures Lower(RequirementsAliases[0]) == "requirements.md" && Lower(RequirementsAliases[1]) == "requirements.md"
  {
    LowerKnown("requirements.md", "requirements.md");
    LowerKnown("REQUIREMENTS.md", "requirements.md");
  }

  lemma ImplementationLowered()
    ensures Lower(ImplementationAliases[0]) == "implementation-plan.md"
    ensures Lower(ImplementationAliases[1]) == "implementation_plan.md"
    ensures Lower(ImplementationAliases[2]) == "implementation.md" && Lower(ImplementationAliases[3]) == "implementation.md"
  {
    LowerKnown("implementation-plan.md", "implementation-plan.md");
    LowerKnown("IMPLEMENTATION_PLAN.md", "implementation_plan.md");
    LowerKnown("implementation.md", "implementation.md");
    LowerKnown("IMPLEMENTATION.md", "implementation.md");
  }

  lemma LowerKnown(s: string, low: string)
    requires |s| == |low| && forall i :: 0 <= i < |s| ==> LowerChar(s[i]) == low[i]
    ensures Lower(s) == low
  {
  }

  /** The requirements file is a name equal to `requirements.md` ignoring case, and absent exactly when there is none. */
  lemma RequirementsFileIs(files: seq<string>)
    ensures FirstAlias(files, RequirementsAliases).None? <==> forall i :: 0 <= i < |files| ==> Lower(files[i]) != "requirements.md"
    ensures FirstAlias(files, RequirementsAliases).Some? ==>
              FirstAlias(files, RequirementsAliases).value in files && Lower(FirstAlias(files, RequirementsAliases).value) == "requirements.md"
  {
    RequirementsLowered();
  }

  /** The implementation file lower-cases to one of the three plan names, and is absent exactly when no name does. */
  lemma ImplementationFileIs(files: seq<string>)
    ensures FirstAlias(files, ImplementationAliases).None? <==>
              forall i :: 0 <= i < |files| ==> Lower(files[i]) !in {"implementation-plan.md", "implementation_plan.md", "implementation.md"}
    ensures FirstAlias(files, ImplementationAliases).Some? ==>
              FirstAlias(files, ImplementationAliases).value in files &&
              Lower(FirstAlias(files, ImplementationAliases).value) in {"implementation-plan.md", "implementation_plan.md", "implementation.md"}
  {
    ImplementationLowered();
  }

  /** `implementation-plan.md`, in any case, wins over every other alias. */
  lemma PlanNameFirst(files: seq<string>, i: nat)
    requires i < |files| && Lower(files[i]) == "implementation-plan.md"
    ensures FirstAlias(files, ImplementationAliases).Some?
    ensures Lower(FirstAlias(files, ImplementationAliases).value) == "implementation-plan.md"
  {
    ImplementationLowered();
    assert FirstNamed(files, ImplementationAliases[0]) <= i;
  }

  /** `.md` names other than the requirements, plan and implementation names, compared lower-cased. */
  predicate IsSupplementaryName(file: string) {
    EndsWith(file, ".md") && Lower(file) != "requirements.md" && Lower(file) != "implementation-plan.md" &&
    Lower(file) != "implementation.md"
  }

  /** The supplementary filter of `processSpecDirectory`. */
  function Supplementary(files: seq<string>): (r: seq<string>)
    ensures forall k :: 0 <= k < |r| ==> IsSupplementaryName(r[k]) && r[k] in files
    ensures forall i :: 0 <= i < |files| && IsSupplementaryName(files[i]) ==> files[i] in r
  {
    Filter(files, IsSupplementaryName)
  }

  /**
   * `IMPLEMENTATION_PLAN.md` is an alias of the plan but lower-cases to a
   * name the supplementary filter does not exclude: when no name of the
   * folder lower-cases to `implementation-plan.md`, the first one that
   * lower-cases to `implementation_plan.md` is the implementation file, and
   * with a lower-case `.md` ending it is a supplementary file too.
   */
  lemma UpperPlanIsAlsoSupplementary(files: seq<string>, i: nat)
    requires i < |files| && Lower(files[i]) == "implementation_plan.md"
    requires forall j :: 0 <= j < |files| ==> Lower(files[j]) != "implementation-plan.md"
    ensures FirstAlias(files, ImplementationAliases).Some?
    ensures var f := FirstAlias(files, ImplementationAliases).value;
            f in files && Lower(f) == "implementation_plan.md" && (EndsWith(f, ".md") ==> f in Supplementary(files))
  {
    ImplementationLowered();
    assert FindName(files, ImplementationAliases[0]).None?;
    var k := FirstNamed(files, ImplementationAliases[1]);
    assert k <= i;
    var f := files[k];
    assert FirstAlias(files, ImplementationAliases) == Some(f);
    if EndsWith(f, ".md") {
      assert IsSupplementaryName(f);
    }
  }

  /** A folder holding only `IMPLEMENTATION_PLAN.md` lists it both as its plan and as a supplementary file. */
  lemma UpperPlanListedTwice(data: string)
    ensures var s := Describe("f", [Entry("IMPLEMENTATION_PLAN.md", File(data))]);
            s.implementationFile == Some("IMPLEMENTATION_PLAN.md") && s.supplementaryFiles == ["IMPLEMENTATION_PLAN.md"]
  {
    var files := Tree.Names([Entry("IMPLEMENTATION_PLAN.md", File(data))]);
    assert files == ["IMPLEMENTATION_PLAN.md"];
    UpperPlanIsAlsoSupplementary(files, 0);
    assert Supplementary(files) == ["IMPLEMENTATION_PLAN.md"];
  }

  // ---------------------------------------------------------------------------
  // One folder

  /** The record of folder `name` whose listing is `es`. */
  function Describe(name: string, es: seq<Entry>): SpecMetadata {
    var files := Tree.Names(es);
    SpecMetadata(name, InferCategory(name), FirstAlias(files, RequirementsAliases),
                 FirstAlias(files, ImplementationAliases), Supplementary(files))
  }

  /** `processSpecDirectory`: `null` when the folder cannot be listed (the `catch`). */
  function Process(name: string, listing: Option<seq<Entry>>): Option<SpecMetadata> {
    match listing
    case None => None
    case Some(es) => Some(Describe(name, es))
  }

  /**
   * `processSpecDirectory(name, path.join(specsDir, name))`: the folder's
   * names are searched for the requirements and implementation aliases and
   * filtered for supplementary files.
   */
  method ProcessSpecDirectory(fs: FileSystem, name: string) returns (spec: Option<SpecMetadata>)
    requires fs.Valid()
    ensures spec.None? <==> !IsDirAt(fs.root, [name])
    ensures spec == Process(name, fs.ReadDir([name]))
  {
    var listing := fs.ReadDir([name]);
    if listing.None? {
      return None;
    }
    var files := Tree.Names(listing.value);
    var requirementsFile := FindFile(files, RequirementsAliases);
    var implementationFile := FindFile(files, ImplementationAliases);
    var supplementaryFiles := Supplementary(files);
    spec := Some(SpecMetadata(name, InferCategory(name), requirementsFile, implementationFile, supplementaryFiles));
  }

  // ---------------------------------------------------------------------------
  // The scan

  /** A directory entry the scan processes: a directory whose name is not excluded. Hidden names are not skipped. */
  predicate Listed(e: Entry) {
    IsDirectory(e.node) && e.name !in ExcludeFolders
  }

  /** What `readdirSync` gives for the entry's own folder. */
  function Listing(n: Node): Option<seq<Entry>> {
    if n.Dir? then Some(n.entries) else None
  }

  /** A processed entry that yields a record: one that can be listed. */
  predicate Kept(e: Entry) {
    Listed(e) && e.node.Dir?
  }

  function Record(e: Entry): SpecMetadata {
    Describe(e.name, if e.node.Dir? then e.node.entries else [])
  }

  /** What the scan loop has pushed after the entries `es`. */
  function Scan(es: seq<Entry>): seq<SpecMetadata> {
    if es == [] then []
    else
      var e := es[|es| - 1];
      Scan(es[..|es| - 1]) + (if Listed(e) && Process(e.name, Listing(e.node)).Some? then [Process(e.name, Listing(e.node)).value] else [])
  }

  lemma ScanStep(es: seq<Entry>, i: nat)
    requires i < |es|
    ensures Scan(es[..i + 1]) == Scan(es[..i]) +
              (if Listed(es[i]) && Process(es[i].name, Listing(es[i].node)).Some? then [Process(es[i].name, Listing(es[i].node)).value] else [])
  {
    assert es[..i + 1][..i] == es[..i];
  }

  /** The scan against its meaning: the records of exactly the listable, non-excluded directories, in listing order. */
  lemma {:induction false} ScanIsFilter(es: seq<Entry>)
    ensures Scan(es) == Map(Filter(es, Kept), Record)
  {
    if es != [] {
      var init := es[..|es| - 1];
      var e := es[|es| - 1];
      ScanIsFilter(init);
      var f := Filter(init, Kept);
      assert Filter(es, Kept) == f + (if Kept(e) then [e] else []);
      if Kept(e) {
        assert (f + [e])[..|f + [e]| - 1] == f;
      }
    }
  }

  /** No excluded name is returned, and every record is that of a directory that can be listed. */
  lemma ScanKeeps(es: seq<Entry>, k: nat)
    requires k < |Scan(es)|
    ensures Scan(es)[k].name !in ExcludeFolders
    ensures exists i :: 0 <= i < |es| && es[i].node.Dir? && Scan(es)[k] == Record(es[i])
  {
    ScanIsFilter(es);
    MapFilterFrom(es, Kept, Record, k);
  }

  /** Every listable directory that is not excluded has its record, hidden ones included. */
  lemma ScanCovers(es: seq<Entry>, i: nat)
    requires i < |es| && es[i].node.Dir? && es[i].name !in ExcludeFolders
    ensures Record(es[i]) in Scan(es)
  {
    ScanIsFilter(es);
    MapFilterCovers(es, Kept, Record, i);
  }

  /**
   * `scanSpecsDirectory` over the specs directory: every directory entry
   * that is not excluded is processed, and the records of those that could
   * be listed are kept.
   */
  method ScanSpecsDirectory(fs: FileSystem) returns (specs: seq<SpecMetadata>)
    requires fs.Valid()
    ensures specs == Scan(fs.root.entries)
  {
    specs := [];
    var entries := fs.root.entries;
    var i := 0;
    while i < |entries|
      invariant 0 <= i <= |entries|
      invariant specs == Scan(entries[..i])
    {
      ScanStep(entries, i);
      var dir := entries[i];
      if IsDirectory(dir.node) && dir.name !in ExcludeFolders {
        FindUnique(entries, i);
        LookupChild(fs.root, dir.name);
        var spec := ProcessSpecDirectory(fs, dir.name);
        if spec.Some? {
          specs := specs + [spec.value];
        }
      }
      i := i + 1;
    }
    assert entries[..|entries|] == entries;
  }
}
