/**
 * The markdown parser of the perseon copy: requirements title, plan counts
 * and status, the labelled priority, the bullet list and the assembly of a
 * feature record.
 */
module PerseonParser {
  import opened Types
  import opened Text
  import opened Patterns
  import opened Plans
  import opened Rules
  import Collections

  /** `parseRequirements`: `read` is the text of the file, `None` when reading it throws. */
  function ParseRequirements(read: Option<string>, h: Heuristics): (r: (string, string))
    ensures read.None? ==> r == ("Unknown Feature", "")
    ensures read.Some? ==> r.0 == Title(read.value) && r.1 == h.description(read.value)
  {
    match read
    case None => ("Unknown Feature", "")
    case Some(content) => (Title(content), h.description(content))
  }

  // ---------------------------------------------------------------------------
  // Priority

  /** How many characters `[:\s]+` can take at the start of `s`. */
  function ColonSpaceRun(s: string): (n: nat)
    ensures n <= |s|
    ensures n < |s| ==> s[n] != ':' && !IsSpace(s[n])
  {
    if |s| > 0 && (s[0] == ':' || IsSpace(s[0])) then 1 + ColonSpaceRun(s[1..]) else 0
  }

  /** `(critical|high|medium|low)` at the start of `s`. */
  function LevelAt(s: string): Option<Priority> {
    if StartsWith(s, "critical") then Some(Critical)
    else if StartsWith(s, "high") then Some(High)
    else if StartsWith(s, "medium") then Some(Medium)
    else if StartsWith(s, "low") then Some(Low)
    else None
  }

  /**
   * `Priority[:\s]+(critical|high|medium|low)` with the `i` flag at position
   * `i` of the lower-cased text. The separator run is taken whole: a level
   * word starts with a letter, so giving characters back cannot help.
   */
  function LabelAt(low: string, i: nat): (r: Option<Priority>)
    requires i <= |low|
    ensures r.Some? ==> StartsWith(low[i..], "priority")
  {
    if StartsWith(low[i..], "priority") then
      var m := ColonSpaceRun(low[i + 8..]);
      if m >= 1 then LevelAt(low[i + 8 + m..]) else None
    else None
  }

  /** Where the leftmost label starts, or `|low|` when there is none. */
  function LabelStart(low: string, i: nat): (j: nat)
    requires i <= |low|
    ensures i <= j <= |low|
    ensures LabelAt(low, j).Some? || j == |low|
    ensures forall k :: i <= k < j ==> LabelAt(low, k).None?
    decreases |low| - i
  {
    if i == |low| || LabelAt(low, i).Some? then i else LabelStart(low, i + 1)
  }

  /** The label of the regex match, if there is one. */
  function Label(content: string): Option<Priority> {
    var low := Lower(content);
    LabelAt(low, LabelStart(low, 0))
  }

  const Siren := "\U{1F6A8}"

  /**
   * `extractPriority`: the leftmost explicit label wins; otherwise the word
   * `critical` or a siren gives critical, and `high priority` gives high.
   */
  function ExtractPriority(content: string): (r: Option<Priority>)
    ensures Label(content).Some? ==> r == Label(content)
    ensures Label(content).None? ==> r != Some(Medium) && r != Some(Low)
    ensures Label(content).None? ==> (r == Some(Critical) <==> Contains(Lower(content), "critical") || Contains(content, Siren))
    ensures Label(content).None? && !(Contains(Lower(content), "critical") || Contains(content, Siren)) ==>
              (r == Some(High) <==> Contains(Lower(content), "high priority"))
  {
    match Label(content)
    case Some(p) => Some(p)
    case None =>
      if Contains(Lower(content), "critical") || Contains(content, Siren) then Some(Critical)
      else if Contains(Lower(content), "high priority") then Some(High)
      else None
  }

  /** `Priority: medium` at the start of a plan is its priority. */
  lemma LabelFirst(rest: string)
    ensures ExtractPriority("Priority: medium" + rest) == Some(Medium)
  {
    var s := "Priority: medium" + rest;
    var low := Lower(s);
    assert LowerChar('P') == 'p';
    forall i | 0 <= i < 16
      ensures low[i] == "priority: medium"[i]
    {
      assert s[i] == "Priority: medium"[i];
    }
    assert low[..16] == "priority: medium";
    assert low[0..] == low;
    assert low[8..][0] == ':' && low[8..][1] == ' ' && low[8..][2] == 'm';
    assert low[8..][1..][1..] == low[10..];
    assert ColonSpaceRun(low[10..]) == 0;
    assert low[8..][1..] == low[9..];
    assert ColonSpaceRun(low[8..]) == 2;
    assert low[10..][..6] == "medium";
    assert LabelAt(low, 0) == Some(Medium);
  }

  // ---------------------------------------------------------------------------
  // The bullet list

  /** `feature.length > 5 && !feature.startsWith("##")`. */
  predicate KeepBullet(f: string) {
    Utf16Length(f) > 5 && !StartsWith(f, "##")
  }

  function Bullet(line: string): seq<string> {
    match BulletItem(line)
    case Some(f) => if KeepBullet(f) then [f] else []
    case None => []
  }

  /** The kept bullets of a list of lines, in order. */
  function BulletFeatures(lines: seq<string>): seq<string> {
    Collections.Collect(lines, Bullet)
  }

  lemma BulletFacts(line: string)
    ensures |Bullet(line)| <= 1
    ensures forall f :: f in Bullet(line) ==> KeepBullet(f) && BulletItem(line) == Some(f)
    ensures BulletItem(line).Some? && KeepBullet(BulletItem(line).value) ==> Bullet(line) == [BulletItem(line).value]
  {
  }

  /** Exactly the kept bullets of the lines are listed. */
  lemma BulletFeaturesAre(lines: seq<string>)
    ensures |BulletFeatures(lines)| <= |lines|
    ensures forall k :: 0 <= k < |BulletFeatures(lines)| ==> KeepBullet(BulletFeatures(lines)[k])
    ensures forall k :: 0 <= k < |BulletFeatures(lines)| ==> exists i :: 0 <= i < |lines| && BulletItem(lines[i]) == Some(BulletFeatures(lines)[k])
    ensures forall i :: 0 <= i < |lines| && BulletItem(lines[i]).Some? && KeepBullet(BulletItem(lines[i]).value) ==> BulletItem(lines[i]).value in BulletFeatures(lines)
  {
    var r := BulletFeatures(lines);
    forall i | 0 <= i < |lines| ensures |Bullet(lines[i])| <= 1 {
      BulletFacts(lines[i]);
    }
    Collections.CollectLength(lines, Bullet);
    Collections.CollectFrom(lines, Bullet);
    Collections.CollectCovers(lines, Bullet);
    forall k | 0 <= k < |r|
      ensures KeepBullet(r[k]) && exists i :: 0 <= i < |lines| && BulletItem(lines[i]) == Some(r[k])
    {
      assert r[k] in r;
      var i :| 0 <= i < |lines| && r[k] in Bullet(lines[i]);
      BulletFacts(lines[i]);
    }
    forall i | 0 <= i < |lines| && BulletItem(lines[i]).Some? && KeepBullet(BulletItem(lines[i]).value)
      ensures BulletItem(lines[i]).value in r
    {
      BulletFacts(lines[i]);
    }
  }

  /** `extractFeatureList`: the kept bullets of the lines, at most 20. */
  method ExtractFeatureList(content: string) returns (features: seq<string>)
    ensures features == Take(BulletFeatures(Split(content, '\n')), 20)
  {
    features := [];
    var lines := Split(content, '\n');
    var i := 0;
    while i < |lines|
      invariant 0 <= i <= |lines|
      invariant features == BulletFeatures(lines[..i])
    {
      Collections.CollectStep(lines, Bullet, i);
      var m := BulletItem(lines[i]);
      if m.Some? {
        var feature := m.value;
        if KeepBullet(feature) {
          features := features + [feature];
        }
      }
      i := i + 1;
    }
    assert lines[..|lines|] == lines;
    features := Take(features, 20);
  }

  /** The list `extractFeatureList` returns, as a value. */
  function FeatureList(content: string): (r: seq<string>)
    ensures |r| <= 20
    ensures forall k :: 0 <= k < |r| ==> KeepBullet(r[k])
  {
    BulletFeaturesAre(Split(content, '\n'));
    Take(BulletFeatures(Split(content, '\n')), 20)
  }

  /** A line ending in a carriage return never matches: `.` stops before it and `$` needs the end of the line. */
  lemma CarriageReturnLine(line: string)
    ensures BulletItem(line + "\r") == None
  {
    var s := line + "\r";
    forall k | 0 <= k <= |s|
      ensures !TailOk(s[k..])
    {
      NoTailThroughReturn(s[k..]);
    }
    forall k | 0 <= k <= |s|
      ensures BulletRest(s[k..]).None?
    {
      var r := s[k..];
      var m := SpaceRun(r);
      if m >= 1 && m + 3 < |r| {
        assert r[m + 3..][1..] == s[k + m + 4..];
      }
      if |r| > 0 {
        assert r[1..] == s[k + 1..];
      }
    }
    DashBulletNone(s, LeadRun(s));
  }

  lemma {:induction false} NoTailThroughReturn(r: string)
    requires |r| > 0 ==> r[|r| - 1] == '\r'
    ensures !TailOk(r)
    decreases |r|
  {
    if |r| > 0 {
      assert IsTerminator(r[|r| - 1]);
      if |r| > 1 {
        NoTailThroughReturn(r[1..]);
      }
    }
  }

  lemma {:induction false} DashBulletNone(s: string, k: nat)
    requires k <= |s|
    requires forall j :: 0 <= j <= |s| ==> BulletRest(s[j..]).None?
    ensures DashBullet(s, k).None?
    decreases k
  {
    if k > 0 {
      DashBulletNone(s, k - 1);
    }
  }

  // ---------------------------------------------------------------------------
  // The plan and the feature record

  /** `parseImplementationPlan`; `read` is `None` when reading the plan throws. */
  function ParseImplementationPlan(read: Option<string>, h: Heuristics): (r: PlanFacts)
    ensures read.None? ==> r == Unread
    ensures r.tasksCompleted <= r.tasksTotal && r.completionPercentage <= 100
    ensures r.tasksTotal == 0 ==> r.completionPercentage == 0 && r.status != Completed
    ensures r.status == Completed ==> r.completionPercentage == 100
    ensures read.Some? ==> r.tasksTotal == CountBoxes(read.value, false) && r.tasksCompleted == CountBoxes(read.value, true)
    ensures read.Some? ==> r.priority == ExtractPriority(read.value)
    ensures read.Some? ==> r.completionPercentage == Percent(r.tasksCompleted, r.tasksTotal)
    ensures read.Some? ==> r.status == PlanStatus(Perseon, read.value, r.completionPercentage)
    ensures read.Some? ==> r.effortEstimate == FirstMatch(h.effort, read.value) && r.targetDate == FirstMatch(h.target, read.value)
  {
    match read
    case None => Unread
    case Some(content) =>
      var f := Progress(Perseon, content);
      f.(effortEstimate := FirstMatch(h.effort, content),
         targetDate := FirstMatch(h.target, content),
         priority := ExtractPriority(content))
  }

  /**
   * `parseSpecification`. Each file argument is `None` when the record has
   * no such file, and otherwise the result of reading it. The plan is read
   * twice: the first read is caught by the plan parser, the second is not,
   * so a plan that cannot be read makes the whole call throw (`None`).
   */
  function ParseSpecification(name: string, category: string, requirements: Option<Option<string>>,
                              implementation: Option<Option<string>>, h: Heuristics): (r: Option<Feature>)
    ensures r.None? <==> implementation == Some(None)
    ensures r.Some? ==> r.value.category == category && r.value.tasksCompleted <= r.value.tasksTotal
    ensures r.Some? && requirements.None? ==> r.value.title == name && r.value.description == ""
    ensures r.Some? && requirements == Some(None) ==> r.value.title == "Unknown Feature" && r.value.description == ""
    ensures implementation.None? ==> (r.Some? && r.value.status == NotStarted && r.value.completionPercentage == 0 &&
                                      r.value.tasksTotal == 0 && r.value.tasksCompleted == 0 && r.value.features == [] &&
                                      r.value.implementationPlanLink == "")
    ensures r.Some? && implementation.Some? ==> r.value.implementationPlanLink == "./specs/" + name + "/implementation-plan.md"
    ensures r.Some? ==> |r.value.features| <= 20
    ensures r.Some? && requirements.Some? ==> (r.value.title, r.value.description) == ParseRequirements(requirements.value, h)
    ensures implementation.Some? && implementation.value.Some? ==>
              var plan := ParseImplementationPlan(implementation.value, h);
              r.Some? && r.value.status == plan.status && r.value.completionPercentage == plan.completionPercentage &&
              r.value.tasksTotal == plan.tasksTotal && r.value.tasksCompleted == plan.tasksCompleted &&
              r.value.effortEstimate == plan.effortEstimate && r.value.targetDate == plan.targetDate &&
              r.value.priority == plan.priority && r.value.features == FeatureList(implementation.value.value)
  {
    var (title, description) := match requirements
      case None => (name, "")
      case Some(read) => ParseRequirements(read, h);
    match implementation
    case None =>
      Some(Feature(title, description, NotStarted, category, 0, 0, 0, None, None, None, "", []))
    case Some(None) => None
    case Some(Some(content)) =>
      var plan := ParseImplementationPlan(Some(content), h);
      Some(Feature(title, description, plan.status, category, plan.completionPercentage,
                   plan.tasksTotal, plan.tasksCompleted, plan.effortEstimate, plan.targetDate, plan.priority,
                   "./specs/" + name + "/implementation-plan.md", FeatureList(content)))
  }
}
