/**
 * The computations inside the perseon copy's document generator: the
 * progress bar of the status dashboard, the status listings (filter, then
 * group by category), the domain of a database model and the grouping of
 * models by domain, and the numbered per-category sections of the detailed
 * specifications. The statistics it starts from are in `Stats`.
 */
module PerseonGenerator {
  import opened Types
  import opened Text
  import opened Rules
  import opened Collections
  import opened Stats

  // ---------------------------------------------------------------------------
  // Progress bar

  /** `s.repeat(n)`. */
  function Repeat(s: string, n: nat): (r: string)
    ensures |r| == n * |s|
  {
    if n == 0 then "" else Repeat(s, n - 1) + s
  }

  lemma {:induction false} RepeatChar(c: char, n: nat)
    ensures forall i :: 0 <= i < n ==> Repeat([c], n)[i] == c
  {
    if n > 0 {
      RepeatChar(c, n - 1);
      assert Repeat([c], n) == Repeat([c], n - 1) + [c];
    }
  }

  lemma {:induction false} RepeatWithin(s: string, n: nat)
    ensures forall i :: 0 <= i < |Repeat(s, n)| ==> Repeat(s, n)[i] in s
  {
    if n > 0 {
      RepeatWithin(s, n - 1);
      var r := Repeat(s, n);
      assert r == Repeat(s, n - 1) + s;
      forall i | 0 <= i < |r|
        ensures r[i] in s
      {
        if i >= |Repeat(s, n - 1)| {
          assert r[i] == s[i - |Repeat(s, n - 1)|];
        }
      }
    }
  }

  /** The two cells as the source file spells them: UTF-8 block characters read back as Windows-1252. */
  const FullCellAsWritten: string := "\U{00E2}\U{2013}\U{02C6}"
  const EmptyCellAsWritten: string := "\U{00E2}\U{2013}\U{2018}"

  /** The cells the bar is meant to show, █ and ░. */
  const FullCell: char := '\U{2588}'
  const EmptyCell: char := '\U{2591}'

  /**
   * `createProgressBar` as written: `floor(p / 10)` full cells and
   * `10 - floor(p / 10)` empty ones; `repeat` throws on a negative count,
   * so a percentage of 110 or more has no bar.
   */
  function CreateProgressBarAsWritten(percentage: nat): (r: Option<string>)
    ensures r.None? <==> percentage >= 110
  {
    var filled := percentage / 10;
    if filled > 10 then None
    else Some(Repeat(FullCellAsWritten, filled) + Repeat(EmptyCellAsWritten, 10 - filled))
  }

  /**
   * As written, a bar is thirty characters long and none of them is a block
   * character: the dashboard shows `â–ˆâ–ˆ…` instead of `██…`.
   */
  lemma AsWrittenBarIsMojibake(percentage: nat)
    requires percentage <= 100
    ensures var r := CreateProgressBarAsWritten(percentage);
            r.Some? && |r.value| == 30 &&
            forall i :: 0 <= i < |r.value| ==> r.value[i] != FullCell && r.value[i] != EmptyCell
  {
    var filled := percentage / 10;
    RepeatWithin(FullCellAsWritten, filled);
    RepeatWithin(EmptyCellAsWritten, 10 - filled);
    var a := Repeat(FullCellAsWritten, filled);
    var b := Repeat(EmptyCellAsWritten, 10 - filled);
    forall i | 0 <= i < |a + b|
      ensures (a + b)[i] != FullCell && (a + b)[i] != EmptyCell
    {
      if i < |a| {
        assert (a + b)[i] == a[i];
      } else {
        assert (a + b)[i] == b[i - |a|];
      }
    }
  }

  /** `createProgressBar` with the block characters it is meant to print. */
  function CreateProgressBar(percentage: nat): (r: Option<string>)
    ensures r.None? <==> percentage >= 110
  {
    var filled := percentage / 10;
    if filled > 10 then None
    else Some(Repeat([FullCell], filled) + Repeat([EmptyCell], 10 - filled))
  }

  /** For a percentage up to 100 the bar has ten cells, the first `floor(p / 10)` of them full. */
  lemma ProgressBarShape(percentage: nat)
    requires percentage <= 100
    ensures var r := CreateProgressBar(percentage);
            r.Some? && |r.value| == 10 &&
            (forall i :: 0 <= i < percentage / 10 ==> r.value[i] == FullCell) &&
            (forall i :: percentage / 10 <= i < 10 ==> r.value[i] == EmptyCell)
  {
    var filled := percentage / 10;
    RepeatChar(FullCell, filled);
    RepeatChar(EmptyCell, 10 - filled);
    var a := Repeat([FullCell], filled);
    var b := Repeat([EmptyCell], 10 - filled);
    assert forall i :: 0 <= i < filled ==> (a + b)[i] == a[i];
    assert forall i :: filled <= i < 10 ==> (a + b)[i] == b[i - filled];
  }

  /** The bars of the status dashboard, one per category in dashboard order. */
  function DashboardBars(features: seq<Feature>): seq<Option<string>> {
    Map(CategoryProgressOf(features), (c: CategoryProgress) => CreateProgressBar(c.completionPercentage))
  }

  /** When no feature has more ticked tasks than tasks, every row of the dashboard gets a ten-cell bar. */
  lemma DashboardBarsDrawn(features: seq<Feature>)
    requires Consistent(features)
    ensures var bars := DashboardBars(features);
            var cats := CategoryProgressOf(features);
            |bars| == |cats| &&
            forall i :: 0 <= i < |bars| ==>
              bars[i].Some? && |bars[i].value| == 10 &&
              forall k :: 0 <= k < 10 ==> (bars[i].value[k] == FullCell <==> k < cats[i].completionPercentage / 10)
  {
    var cats := CategoryProgressOf(features);
    CategoryPercentBound(features);
    forall i | 0 <= i < |cats|
      ensures var bar := CreateProgressBar(cats[i].completionPercentage);
              bar.Some? && |bar.value| == 10 &&
              forall k :: 0 <= k < 10 ==> (bar.value[k] == FullCell <==> k < cats[i].completionPercentage / 10)
    {
      ProgressBarShape(cats[i].completionPercentage);
    }
  }

  // ---------------------------------------------------------------------------
  // Status listings

  /** The three listings of the document. */
  datatype ListedStatus = ListCompleted | ListInProgress | ListPlanned

  /** The filter of a listing; the planned listing also takes the features not started. */
  function InListing(status: ListedStatus): Feature -> bool {
    match status
    case ListCompleted => (f: Feature) => IsCompleted(f)
    case ListInProgress => (f: Feature) => IsInProgress(f)
    case ListPlanned => (f: Feature) => IsPlanned(f)
  }

  /** A listing is either the "No features in this status." text or the features grouped by category. */
  datatype StatusListing = NoFeatures | Grouped(total: nat, byCategory: seq<(string, seq<Feature>)>)

  function ListingOf(features: seq<Feature>, status: ListedStatus): StatusListing {
    var filtered := Filter(features, InListing(status));
    if |filtered| == 0 then NoFeatures else Grouped(|filtered|, GroupBy(filtered, CategoryKey))
  }

  /** The filter and the grouping loop of `generateFeaturesByStatus`. */
  method GenerateFeaturesByStatus(features: seq<Feature>, status: ListedStatus) returns (listing: StatusListing)
    ensures listing == ListingOf(features, status)
  {
    var filtered := Filter(features, InListing(status));
    if |filtered| == 0 {
      return NoFeatures;
    }
    var byCategory := Group(filtered, CategoryKey);
    listing := Grouped(|filtered|, byCategory);
  }

  /**
   * A listing is empty exactly when no feature has its status; otherwise
   * its total counts the features with that status, and its groups, one per
   * category without repeats, hold each of them once, in order.
   */
  lemma ListingMeaning(features: seq<Feature>, status: ListedStatus)
    ensures ListingOf(features, status).NoFeatures? <==> forall i :: 0 <= i < |features| ==> !InListing(status)(features[i])
    ensures var l := ListingOf(features, status);
            var filtered := Filter(features, InListing(status));
            l.Grouped? ==>
              && l.total == |filtered| == SumSizes(l.byCategory)
              && DistinctKeys(l.byCategory)
              && (forall j :: 0 <= j < |l.byCategory| ==> l.byCategory[j].1 == Bucket(filtered, CategoryKey, l.byCategory[j].0) != [])
              && (forall i :: 0 <= i < |features| && InListing(status)(features[i]) ==>
                    KeyIndex(l.byCategory, features[i].category) < |l.byCategory|)
  {
    var p := InListing(status);
    var filtered := Filter(features, p);
    if |filtered| > 0 {
      assert filtered[0] in features;
    }
    GroupByIsGrouping(filtered, CategoryKey);
    GroupByPartitions(filtered, CategoryKey);
    forall i | 0 <= i < |features| && p(features[i])
      ensures KeyIndex(GroupBy(filtered, CategoryKey), features[i].category) < |GroupBy(filtered, CategoryKey)|
    {
      assert features[i] in filtered;
      var k :| 0 <= k < |filtered| && filtered[k] == features[i];
      GroupByCovers(filtered, CategoryKey, k);
    }
  }

  /** The three listings partition the features: each feature is in exactly one of them. */
  lemma ListingsPartition(features: seq<Feature>)
    ensures |Filter(features, InListing(ListCompleted))| + |Filter(features, InListing(ListInProgress))| +
            |Filter(features, InListing(ListPlanned))| == |features|
    ensures forall f: Feature ::
              (if InListing(ListCompleted)(f) then 1 else 0) + (if InListing(ListInProgress)(f) then 1 else 0) +
              (if InListing(ListPlanned)(f) then 1 else 0) == 1
  {
    StatusPartition(features);
    assert Filter(features, InListing(ListCompleted)) == Filter(features, IsCompleted) by {
      FilterSame(features, InListing(ListCompleted), IsCompleted);
    }
    assert Filter(features, InListing(ListInProgress)) == Filter(features, IsInProgress) by {
      FilterSame(features, InListing(ListInProgress), IsInProgress);
    }
    assert Filter(features, InListing(ListPlanned)) == Filter(features, IsPlanned) by {
      FilterSame(features, InListing(ListPlanned), IsPlanned);
    }
  }

  // ---------------------------------------------------------------------------
  // Database models by domain

  /** The keyword rules of `inferModelDomain`, in order; Projects and Issue Tracking exclude GitHub names. */
  const ModelDomainRules: seq<Rule> := [
    Rule("User Management", ["user", "session", "account", "verification"], []),
    Rule("Workspace & Teams", ["workspace", "invitation"], []),
    Rule("Projects", ["project"], ["github", "workspace"]),
    Rule("Issue Tracking", ["issue"], ["github"]),
    Rule("GitHub Integration", ["github", "git"], []),
    Rule("Community Features", ["feature", "bug", "upvote", "comment"], []),
    Rule("Activity & Notifications", ["activity", "notification"], []),
    Rule("Configuration", ["email", "polar"], [])
  ]

  /** `inferModelDomain`: the first rule that applies to the lower-cased model name, else `Other`. */
  function InferModelDomain(modelName: string): string {
    Classify(ModelDomainRules, Lower(modelName))
  }

  lemma ModelDomainRulesDistinct()
    ensures DistinctCategories(ModelDomainRules)
  {
    DistinctByLetters(ModelDomainRules, 0, 2);
  }

  /** A model is filed under the domain of rule `j` exactly when rule `j` is the first that applies to its name. */
  lemma InferModelDomainFirstMatch(modelName: string, j: nat)
    requires j < |ModelDomainRules|
    ensures InferModelDomain(modelName) == ModelDomainRules[j].category <==>
            Applies(ModelDomainRules[j], Lower(modelName)) && forall i :: 0 <= i < j ==> !Applies(ModelDomainRules[i], Lower(modelName))
  {
    ModelDomainRulesDistinct();
    ClassifyCategory(ModelDomainRules, Lower(modelName), j);
  }

  lemma InferModelDomainOther(modelName: string)
    ensures InferModelDomain(modelName) == "Other" <==> forall i :: 0 <= i < |ModelDomainRules| ==> !Applies(ModelDomainRules[i], Lower(modelName))
  {
    ModelDomainRulesDistinct();
    ClassifyOther(ModelDomainRules, Lower(modelName));
  }

  /** A model whose name mentions GitHub, in any case, is never filed under Projects or Issue Tracking. */
  lemma GithubNeverProjectsOrIssues(modelName: string)
    requires Contains(Lower(modelName), "github")
    ensures InferModelDomain(modelName) != "Projects" && InferModelDomain(modelName) != "Issue Tracking"
  {
    var name := Lower(modelName);
    ContainsAnyIff(name, ModelDomainRules[2].noneOf);
    ContainsAnyIff(name, ModelDomainRules[3].noneOf);
    assert ModelDomainRules[2].noneOf[0] == "github";
    assert ModelDomainRules[3].noneOf[0] == "github";
    InferModelDomainFirstMatch(modelName, 2);
    InferModelDomainFirstMatch(modelName, 3);
  }

  /**
   * `groupModelsByDomain`: every model lands in the group of its domain, in
   * order; each domain has one group, opened where its first model is met.
   */
  method GroupModelsByDomain(models: seq<string>) returns (groups: seq<(string, seq<string>)>)
    ensures DistinctKeys(groups)
    ensures forall j :: 0 <= j < |groups| ==> groups[j].1 == Bucket(models, InferModelDomain, groups[j].0) != []
    ensures forall d :: KeyIndex(groups, d) < |groups| <==> exists i :: 0 <= i < |models| && InferModelDomain(models[i]) == d
    ensures SumSizes(groups) == |models|
  {
    groups := Group(models, InferModelDomain);
    GroupByIsGrouping(models, InferModelDomain);
    GroupByPartitions(models, InferModelDomain);
    forall d
      ensures KeyIndex(groups, d) < |groups| <==> exists i :: 0 <= i < |models| && InferModelDomain(models[i]) == d
    {
      assert Bucket(models, InferModelDomain, d) != [] <==> exists i :: 0 <= i < |models| && InferModelDomain(models[i]) == d;
    }
  }

  // ---------------------------------------------------------------------------
  // Detailed feature specifications

  /** What the detailed section shows of one feature; at most ten of its sub-features. */
  datatype DetailedEntry = DetailedEntry(
    title: string,
    status: Status,
    description: string,
    completionPercentage: nat,
    implementationPlanLink: string,
    keyFeatures: seq<string>)

  /** A numbered section `### n. category` and the entries under it. */
  datatype DetailedSection = DetailedSection(number: nat, category: string, entries: seq<DetailedEntry>)

  function EntryOf(f: Feature): (e: DetailedEntry)
    ensures e.title == f.title && e.status == f.status && e.implementationPlanLink == f.implementationPlanLink
    ensures |e.keyFeatures| <= 10 && |e.keyFeatures| <= |f.features| && e.keyFeatures == f.features[..|e.keyFeatures|]
    ensures |f.features| <= 10 ==> e.keyFeatures == f.features
  {
    DetailedEntry(f.title, f.status, f.description, f.completionPercentage, f.implementationPlanLink, Take(f.features, 10))
  }

  /** The sections of `generateDetailedFeatures`: one per category in first-met order, numbered from 1. */
  function SectionsOf(features: seq<Feature>): seq<DetailedSection> {
    var g := GroupBy(features, CategoryKey);
    seq(|g|, q requires 0 <= q < |g| => DetailedSection(q + 1, g[q].0, Map(g[q].1, EntryOf)))
  }

  /** The inner loop of `generateDetailedFeatures`: one entry per feature of a category, in order. */
  method DetailedEntries(categoryFeatures: seq<Feature>) returns (entries: seq<DetailedEntry>)
    ensures entries == Map(categoryFeatures, EntryOf)
  {
    entries := [];
    var n := 0;
    while n < |categoryFeatures|
      invariant 0 <= n <= |categoryFeatures| && |entries| == n
      invariant forall k :: 0 <= k < n ==> entries[k] == EntryOf(categoryFeatures[k])
    {
      entries := entries + [EntryOf(categoryFeatures[n])];
      n := n + 1;
    }
  }

  /** The grouping loop, then the section loop with its running `sectionNum`, of `generateDetailedFeatures`. */
  method GenerateDetailedFeatures(features: seq<Feature>) returns (sections: seq<DetailedSection>)
    ensures sections == SectionsOf(features)
  {
    var byCategory := Group(features, CategoryKey);
    sections := [];
    var sectionNum := 1;
    var q := 0;
    while q < |byCategory|
      invariant 0 <= q <= |byCategory| && sectionNum == q + 1
      invariant |sections| == q
      invariant forall m :: 0 <= m < q ==> sections[m] == SectionsOf(features)[m]
    {
      var category := byCategory[q].0;
      var categoryFeatures := byCategory[q].1;
      var entries := DetailedEntries(categoryFeatures);
      sections := sections + [DetailedSection(sectionNum, category, entries)];
      sectionNum := sectionNum + 1;
      q := q + 1;
    }
  }

  /**
   * The detailed sections are numbered 1, 2, … in order, and each holds one
   * entry per feature of its category, in order.
   */
  lemma SectionsNumbered(features: seq<Feature>)
    ensures var s := SectionsOf(features);
            forall i :: 0 <= i < |s| ==>
              s[i].number == i + 1 && s[i].entries == Map(Bucket(features, CategoryKey, s[i].category), EntryOf) != []
  {
    GroupByIsGrouping(features, CategoryKey);
  }

  /** Each category has exactly one detailed section. */
  lemma SectionsCover(features: seq<Feature>)
    ensures var s := SectionsOf(features);
            && (forall i, j :: 0 <= i < j < |s| ==> s[i].category != s[j].category)
            && (forall k :: 0 <= k < |features| ==> exists i :: 0 <= i < |s| && s[i].category == features[k].category)
  {
    var g := GroupBy(features, CategoryKey);
    var s := SectionsOf(features);
    GroupByIsGrouping(features, CategoryKey);
    forall k | 0 <= k < |features|
      ensures exists i :: 0 <= i < |s| && s[i].category == features[k].category
    {
      GroupByCovers(features, CategoryKey, k);
      var i := KeyIndex(g, features[k].category);
      assert s[i].category == g[i].0;
    }
  }
}
