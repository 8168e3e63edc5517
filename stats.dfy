/**
 * The statistics both orchestrators and the perseon generator compute over
 * the assembled features: counts per status (`planned` absorbing features
 * not started), the task-weighted overall completion, the number of
 * features per category, and the per-category progress of the perseon
 * status dashboard.
 */
module Stats {
  import opened Types
  import opened Plans
  import opened Collections

  predicate IsCompleted(f: Feature) {
    f.status == Completed
  }

  predicate IsInProgress(f: Feature) {
    f.status == InProgress
  }

  /** `f.status === 'planned' || f.status === 'not_started'`. */
  predicate IsPlanned(f: Feature) {
    f.status == Planned || f.status == NotStarted
  }

  function CategoryKey(f: Feature): string {
    f.category
  }

  /** `features.reduce((sum, f) => sum + f.tasksTotal, 0)`. */
  function TotalTasks(fs: seq<Feature>): nat {
    if fs == [] then 0 else TotalTasks(fs[..|fs| - 1]) + fs[|fs| - 1].tasksTotal
  }

  /** `features.reduce((sum, f) => sum + f.tasksCompleted, 0)`. */
  function CompletedTasks(fs: seq<Feature>): nat {
    if fs == [] then 0 else CompletedTasks(fs[..|fs| - 1]) + fs[|fs| - 1].tasksCompleted
  }

  /** What both parsers guarantee of every feature they produce. */
  predicate Consistent(fs: seq<Feature>) {
    forall i :: 0 <= i < |fs| ==> fs[i].tasksCompleted <= fs[i].tasksTotal
  }

  lemma {:induction false} CompletedAtMostTotal(fs: seq<Feature>)
    requires Consistent(fs)
    ensures CompletedTasks(fs) <= TotalTasks(fs)
  {
    if fs != [] {
      var init := fs[..|fs| - 1];
      assert forall i :: 0 <= i < |init| ==> init[i] == fs[i];
      CompletedAtMostTotal(init);
    }
  }

  /** Every feature is counted under exactly one of the three headings. */
  lemma {:induction false} StatusPartition(fs: seq<Feature>)
    ensures |Filter(fs, IsCompleted)| + |Filter(fs, IsInProgress)| + |Filter(fs, IsPlanned)| == |fs|
  {
    if fs != [] {
      StatusPartition(fs[..|fs| - 1]);
    }
  }

  lemma OverallAtMost100(fs: seq<Feature>)
    ensures Consistent(fs) ==> Percent(CompletedTasks(fs), TotalTasks(fs)) <= 100
  {
    if Consistent(fs) {
      CompletedAtMostTotal(fs);
      PercentAtMost100(CompletedTasks(fs), TotalTasks(fs));
    }
  }

  datatype Statistics = Statistics(total: nat, completed: nat, inProgress: nat, planned: nat, overallCompletion: nat)

  /**
   * `calculateStatistics`, and the same filters and reductions in both
   * orchestrators: the status counts partition the features, and the overall
   * completion is the rounded share of ticked tasks among all tasks.
   */
  function CalculateStatistics(fs: seq<Feature>): (s: Statistics)
    ensures s.total == |fs|
    ensures s.completed + s.inProgress + s.planned == s.total
    ensures s.completed == |Filter(fs, IsCompleted)| && s.inProgress == |Filter(fs, IsInProgress)|
    ensures s.planned == |Filter(fs, IsPlanned)|
    ensures TotalTasks(fs) == 0 ==> s.overallCompletion == 0
    ensures TotalTasks(fs) > 0 ==>
              2 * TotalTasks(fs) * s.overallCompletion <= 200 * CompletedTasks(fs) + TotalTasks(fs) < 2 * TotalTasks(fs) * (s.overallCompletion + 1)
    ensures Consistent(fs) ==> s.overallCompletion <= 100
  {
    StatusPartition(fs);
    OverallAtMost100(fs);
    Statistics(|fs|, |Filter(fs, IsCompleted)|, |Filter(fs, IsInProgress)|, |Filter(fs, IsPlanned)|,
               Percent(CompletedTasks(fs), TotalTasks(fs)))
  }

  /** The counters an orchestrator reports: the statistics and the features per category, in first-met order. */
  function ReportOf(fs: seq<Feature>): (r: Report)
    ensures r.featuresCount == |fs|
    ensures r.completed + r.inProgress + r.planned == r.featuresCount
    ensures r.completed == |Filter(fs, IsCompleted)| && r.inProgress == |Filter(fs, IsInProgress)|
    ensures r.planned == |Filter(fs, IsPlanned)|
    ensures r.completionPercentage == Percent(CompletedTasks(fs), TotalTasks(fs))
    ensures TotalTasks(fs) == 0 ==> r.completionPercentage == 0
    ensures Consistent(fs) ==> r.completionPercentage <= 100
    ensures SumCounts(r.categories) == |fs|
    ensures forall k :: KeyIndex(r.categories, k) < |r.categories| <==> exists i :: 0 <= i < |fs| && fs[i].category == k
    ensures forall j :: 0 <= j < |r.categories| ==> r.categories[j].1 == |Bucket(fs, CategoryKey, r.categories[j].0)|
  {
    var s := CalculateStatistics(fs);
    CountByTotal(fs, CategoryKey);
    var counts := CountBy(fs, CategoryKey);
    forall k
      ensures KeyIndex(counts, k) < |counts| <==> exists i :: 0 <= i < |fs| && fs[i].category == k
    {
      assert Bucket(fs, CategoryKey, k) != [] <==> exists i :: 0 <= i < |fs| && CategoryKey(fs[i]) == k;
    }
    Report(|fs|, s.overallCompletion, s.completed, s.inProgress, s.planned, counts)
  }

  /**
   * Step 3 of both orchestrators: the status filters and task reductions,
   * then the loop that bumps `categories[feature.category]` for each feature.
   */
  method AggregateStatistics(features: seq<Feature>) returns (report: Report)
    ensures report == ReportOf(features)
  {
    var s := CalculateStatistics(features);
    var categories := Count(features, CategoryKey);
    BumpsIsCountBy(features, CategoryKey);
    report := Report(|features|, s.overallCompletion, s.completed, s.inProgress, s.planned, categories);
  }

  // ---------------------------------------------------------------------------
  // Per-category progress

  /** The counters of a category before its percentage is filled in. */
  function Tally(name: string, fs: seq<Feature>): CategoryProgress {
    CategoryProgress(name, 0, |Filter(fs, IsCompleted)|, |Filter(fs, IsInProgress)|, |Filter(fs, IsPlanned)|, |fs|)
  }

  /** A category's progress: its counters and the rounded share of ticked tasks among its own tasks. */
  function ProgressOf(name: string, fs: seq<Feature>): CategoryProgress {
    Tally(name, fs).(completionPercentage := Percent(CompletedTasks(fs), TotalTasks(fs)))
  }

  function TallyGroup(g: (string, seq<Feature>)): CategoryProgress {
    Tally(g.0, g.1)
  }

  function ProgressGroup(g: (string, seq<Feature>)): CategoryProgress {
    ProgressOf(g.0, g.1)
  }

  /** What `calculateCategoryProgress` returns: one entry per category, in the order categories are first met. */
  function CategoryProgressOf(features: seq<Feature>): seq<CategoryProgress> {
    Map(GroupBy(features, CategoryKey), ProgressGroup)
  }

  /** One turn of the first loop: the entry of the feature's category gains one feature. */
  function Count1(c: CategoryProgress, f: Feature): CategoryProgress {
    c.(total := c.total + 1,
       completed := c.completed + (if IsCompleted(f) then 1 else 0),
       inProgress := c.inProgress + (if IsInProgress(f) then 1 else 0),
       planned := c.planned + (if IsPlanned(f) then 1 else 0))
  }

  /** The entries held so far are the tallies of the groups of the features seen so far. */
  ghost predicate Tallied(cats: seq<CategoryProgress>, g: seq<(string, seq<Feature>)>) {
    |cats| == |g| && forall q :: 0 <= q < |g| ==> cats[q] == TallyGroup(g[q])
  }

  lemma TallySnoc(name: string, fs: seq<Feature>, f: Feature)
    ensures Tally(name, fs + [f]) == Count1(Tally(name, fs), f)
  {
    var xs := fs + [f];
    assert xs[..|xs| - 1] == fs;
  }

  lemma {:induction false} TallyExisting(cats: seq<CategoryProgress>, g: seq<(string, seq<Feature>)>, f: Feature)
    requires Tallied(cats, g) && KeyIndex(g, f.category) < |g|
    ensures var j := KeyIndex(g, f.category);
            cats[j].name == f.category && Tallied(cats[j := Count1(cats[j], f)], Upsert(g, f.category, f))
  {
    var j := KeyIndex(g, f.category);
    var u := g[j := (f.category, g[j].1 + [f])];
    assert Upsert(g, f.category, f) == u;
    TallySnoc(f.category, g[j].1, f);
    assert Tallied(cats[j := Count1(cats[j], f)], u);
  }

  lemma {:induction false} TallyNew(cats: seq<CategoryProgress>, g: seq<(string, seq<Feature>)>, f: Feature)
    requires Tallied(cats, g) && KeyIndex(g, f.category) == |g|
    ensures var cs := cats + [CategoryProgress(f.category, 0, 0, 0, 0, 0)];
            Tallied(cs[|g| := Count1(cs[|g|], f)], Upsert(g, f.category, f))
  {
    TallySnoc(f.category, [], f);
    assert [] + [f] == [f];
  }

  /** After the second loop has reached entry `m`, the entries before it carry their percentage. */
  ghost predicate Finished(cats: seq<CategoryProgress>, g: seq<(string, seq<Feature>)>, m: nat) {
    |cats| == |g| && m <= |g| &&
    (forall q :: 0 <= q < m ==> cats[q] == ProgressGroup(g[q])) &&
    (forall q :: m <= q < |g| ==> cats[q] == TallyGroup(g[q]))
  }

  /** `f => f.category === name`. */
  function HasCategory(name: string): Feature -> bool {
    (f: Feature) => f.category == name
  }

  lemma FinishStep(features: seq<Feature>, cats: seq<CategoryProgress>, m: nat)
    requires Finished(cats, GroupBy(features, CategoryKey), m) && m < |cats|
    ensures var b := Filter(features, HasCategory(cats[m].name));
            var pct := if TotalTasks(b) > 0 then Percent(CompletedTasks(b), TotalTasks(b)) else 0;
            Finished(cats[m := cats[m].(completionPercentage := pct)], GroupBy(features, CategoryKey), m + 1)
  {
    var g := GroupBy(features, CategoryKey);
    GroupAt(features, CategoryKey, m);
    BucketIsFilter(features, CategoryKey, g[m].0, HasCategory(g[m].0));
  }

  /**
   * The first loop of `calculateCategoryProgress`: for each feature, find
   * the entry of its category (opening one with zero counters when the
   * category is new) and bump the counters.
   */
  method TallyCategories(features: seq<Feature>) returns (cats: seq<CategoryProgress>)
    ensures Tallied(cats, GroupBy(features, CategoryKey))
  {
    cats := [];
    var i := 0;
    while i < |features|
      invariant 0 <= i <= |features|
      invariant Tallied(cats, GroupBy(features[..i], CategoryKey))
    {
      var feature := features[i];
      ghost var g := GroupBy(features[..i], CategoryKey);
      var j := 0;
      while j < |cats| && cats[j].name != feature.category
        invariant 0 <= j <= |cats|
        invariant forall m :: 0 <= m < j ==> g[m].0 != feature.category
      {
        j := j + 1;
      }
      assert j == KeyIndex(g, feature.category);
      if j == |cats| {
        TallyNew(cats, g, feature);
        cats := cats + [CategoryProgress(feature.category, 0, 0, 0, 0, 0)];
      } else {
        TallyExisting(cats, g, feature);
      }
      // total++, then completed++, inProgress++ or planned++ by status
      cats := cats[j := Count1(cats[j], feature)];
      assert features[..i + 1][..i] == features[..i];
      assert GroupBy(features[..i + 1], CategoryKey) == Upsert(g, feature.category, feature);
      i := i + 1;
    }
    assert features[..i] == features;
  }

  /**
   * `calculateCategoryProgress`: the first loop tallies the categories; the
   * second fills in each entry's percentage from that category's features.
   */
  method CalculateCategoryProgress(features: seq<Feature>) returns (cats: seq<CategoryProgress>)
    ensures cats == CategoryProgressOf(features)
  {
    cats := TallyCategories(features);
    var m := 0;
    while m < |cats|
      invariant Finished(cats, GroupBy(features, CategoryKey), m)
    {
      var name := cats[m].name;
      var categoryFeatures := Filter(features, HasCategory(name));
      var totalTasks := TotalTasks(categoryFeatures);
      var completedTasks := CompletedTasks(categoryFeatures);
      var pct := if totalTasks > 0 then Percent(completedTasks, totalTasks) else 0;
      FinishStep(features, cats, m);
      cats := cats[m := cats[m].(completionPercentage := pct)];
      m := m + 1;
    }
  }

  /** The per-category progress has one entry per category: no name appears twice. */
  lemma CategoryNamesDistinct(features: seq<Feature>)
    ensures var cats := CategoryProgressOf(features);
            forall i, j :: 0 <= i < j < |cats| ==> cats[i].name != cats[j].name
  {
    GroupByIsGrouping(features, CategoryKey);
  }

  /** Every feature's category has an entry, and every entry is the category of some feature. */
  lemma CategoryNamesPresent(features: seq<Feature>)
    ensures var cats := CategoryProgressOf(features);
            && (forall k :: 0 <= k < |features| ==> exists i :: 0 <= i < |cats| && cats[i].name == features[k].category)
            && (forall i :: 0 <= i < |cats| ==> exists k :: 0 <= k < |features| && features[k].category == cats[i].name)
  {
    var g := GroupBy(features, CategoryKey);
    var cats := CategoryProgressOf(features);
    forall k | 0 <= k < |features|
      ensures exists i :: 0 <= i < |cats| && cats[i].name == features[k].category
    {
      GroupByCovers(features, CategoryKey, k);
      var i := KeyIndex(g, features[k].category);
      assert cats[i].name == g[i].0;
    }
    forall i | 0 <= i < |cats|
      ensures exists k :: 0 <= k < |features| && features[k].category == cats[i].name
    {
      GroupByIsGrouping(features, CategoryKey);
      assert Bucket(features, CategoryKey, g[i].0) != [];
    }
  }

  /**
   * Each entry counts exactly its category's features, its status counters
   * partition them, its percentage is their rounded task share, and all the
   * entries together count every feature once.
   */
  lemma CategoryCounts(features: seq<Feature>)
    ensures var cats := CategoryProgressOf(features);
            && (forall i :: 0 <= i < |cats| ==>
                  var b := Bucket(features, CategoryKey, cats[i].name);
                  cats[i].total == |b| > 0 && cats[i].completed + cats[i].inProgress + cats[i].planned == cats[i].total &&
                  cats[i].completionPercentage == Percent(CompletedTasks(b), TotalTasks(b)))
            && SumSizes(GroupBy(features, CategoryKey)) == |features|
  {
    var g := GroupBy(features, CategoryKey);
    var cats := CategoryProgressOf(features);
    GroupByIsGrouping(features, CategoryKey);
    GroupByPartitions(features, CategoryKey);
    forall i | 0 <= i < |cats|
      ensures cats[i].completed + cats[i].inProgress + cats[i].planned == cats[i].total
    {
      StatusPartition(g[i].1);
    }
  }

  lemma ConsistentBucket(features: seq<Feature>, k: string)
    requires Consistent(features)
    ensures Consistent(Bucket(features, CategoryKey, k))
  {
    var b := Bucket(features, CategoryKey, k);
    BucketWithin(features, CategoryKey, k);
    forall n | 0 <= n < |b|
      ensures b[n].tasksCompleted <= b[n].tasksTotal
    {
      assert b[n] in features;
    }
  }

  /** When no feature has more ticked tasks than tasks, no category is past 100%. */
  lemma CategoryPercentBound(features: seq<Feature>)
    requires Consistent(features)
    ensures var cats := CategoryProgressOf(features);
            forall i :: 0 <= i < |cats| ==> cats[i].completionPercentage <= 100
  {
    var g := GroupBy(features, CategoryKey);
    var cats := CategoryProgressOf(features);
    GroupByIsGrouping(features, CategoryKey);
    forall i | 0 <= i < |cats|
      ensures cats[i].completionPercentage <= 100
    {
      var b := g[i].1;
      ConsistentBucket(features, g[i].0);
      CompletedAtMostTotal(b);
      PercentAtMost100(CompletedTasks(b), TotalTasks(b));
    }
  }
}
