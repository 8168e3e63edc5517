/**
 * The markdown parser of the plugin copy: the title of a requirements file,
 * the counts, status, priority and sub-feature list of an implementation
 * plan, and the list of completed features.
 */
module PluginParser {
  import opened Types
  import opened Text
  import opened Patterns
  import opened Plans
  import opened Rules
  import Collections

  /**
   * `parseRequirements`: `read` is the text of the file, `None` when reading
   * it throws. The title is the first `#` heading (`Patterns.Title`); the
   * description comes from the opaque heuristics.
   */
  function ParseRequirements(read: Option<string>, h: Heuristics): (r: (string, string))
    ensures read.None? ==> r == ("Unknown", "")
    ensures read.Some? ==> r.0 == Title(read.value) && r.1 == h.description(read.value)
  {
    match read
    case None => ("Unknown", "")
    case Some(content) => (Title(content), h.description(content))
  }

  // ---------------------------------------------------------------------------
  // Priority

  function Word(p: Priority): string {
    match p
    case Critical => "critical"
    case High => "high"
    case Medium => "medium"
    case Low => "low"
  }

  /** The order in which the cascade tests the levels. */
  function Rank(p: Priority): nat {
    match p
    case Critical => 0
    case High => 1
    case Medium => 2
    case Low => 3
  }

  /** `priority: <level>` or `<level> priority` occurs in the lower-cased text. */
  predicate Phrased(low: string, p: Priority) {
    Contains(low, "priority: " + Word(p)) || Contains(low, Word(p) + " priority")
  }

  /** The cascade of `extractPriority` on the lower-cased text: the first level, from critical down to low, whose phrase occurs. */
  function PriorityIn(low: string): (r: Option<Priority>)
    ensures r.None? <==> forall p: Priority :: !Phrased(low, p)
    ensures r.Some? ==> Phrased(low, r.value)
    ensures r.Some? ==> forall p: Priority :: Rank(p) < Rank(r.value) ==> !Phrased(low, p)
  {
    if Phrased(low, Critical) then Some(Critical)
    else if Phrased(low, High) then Some(High)
    else if Phrased(low, Medium) then Some(Medium)
    else if Phrased(low, Low) then Some(Low)
    else None
  }

  /** `extractPriority`. */
  function ExtractPriority(content: string): Option<Priority> {
    PriorityIn(Lower(content))
  }

  // ---------------------------------------------------------------------------
  // Sub-feature lists

  /** The features of the lines of a features section: trimmed captures longer than 5, in order. */
  function SectionFeatures(lines: seq<string>): (r: seq<string>)
    ensures |r| <= |lines|
    ensures forall k :: 0 <= k < |r| ==> Utf16Length(r[k]) > 5
    ensures forall k :: 0 <= k < |r| ==> exists i :: 0 <= i < |lines| && SectionItem(lines[i]) == Some(r[k])
    ensures forall i :: 0 <= i < |lines| && SectionItem(lines[i]).Some? && Utf16Length(SectionItem(lines[i]).value) > 5 ==> SectionItem(lines[i]).value in r
  {
    if lines == [] then []
    else
      var init := SectionFeatures(lines[..|lines| - 1]);
      var last := lines[|lines| - 1];
      assert forall i :: 0 <= i < |lines| - 1 ==> lines[..|lines| - 1][i] == lines[i];
      match SectionItem(last)
      case Some(f) => if Utf16Length(f) > 5 then init + [f] else init
      case None => init
  }

  /** The fallback's filter: long enough and not a sub-task. */
  predicate KeepFallback(f: string) {
    Utf16Length(f) > 10 && !StartsWith(f, "Create ") && !StartsWith(f, "Add ")
  }

  /** The features found in the features section, when there is one. */
  function SectionList(content: string): seq<string> {
    match FeaturesSection(content)
    case Some(section) => SectionFeatures(Split(section, '\n'))
    case None => []
  }

  /**
   * `extractFeaturesList`: the features section's items, or, when it yields
   * none, the checkbox lines of the whole text that pass the stricter
   * filter; at most 10 of them.
   */
  function FeaturesList(content: string): (r: seq<string>)
    ensures |r| <= 10
    ensures forall k :: 0 <= k < |r| ==> Utf16Length(r[k]) > 5
    ensures SectionList(content) != [] ==> r == Take(SectionList(content), 10)
    ensures SectionList(content) == [] ==> forall k :: 0 <= k < |r| ==> KeepFallback(r[k]) && r[k] in CheckboxCaptures(content, 0)
    ensures SectionList(content) == [] ==> r == Take(Collections.Filter(CheckboxCaptures(content, 0), KeepFallback), 10)
  {
    var fromSection := SectionList(content);
    if fromSection != [] then Take(fromSection, 10)
    else Take(Collections.Filter(CheckboxCaptures(content, 0), KeepFallback), 10)
  }

  /** The loop of `extractFeaturesList`. */
  method ExtractFeaturesList(content: string) returns (features: seq<string>)
    ensures features == FeaturesList(content)
  {
    features := [];
    var section := FeaturesSection(content);
    if section.Some? {
      features := SectionLoop(Split(section.value, '\n'));
    }
    assert features == SectionList(content);
    if |features| == 0 {
      features := FallbackLoop(CheckboxCaptures(content, 0));
    }
    features := Take(features, 10);
  }

  /** The first loop: the items of the section's lines longer than 5. */
  method SectionLoop(lines: seq<string>) returns (features: seq<string>)
    ensures features == SectionFeatures(lines)
  {
    features := [];
    var i := 0;
    while i < |lines|
      invariant 0 <= i <= |lines|
      invariant features == SectionFeatures(lines[..i])
    {
      SectionStep(lines, i);
      var m := SectionItem(lines[i]);
      if m.Some? {
        var feature := m.value;
        if Utf16Length(feature) > 5 {
          features := features + [feature];
        }
      }
      i := i + 1;
    }
    assert lines[..|lines|] == lines;
  }

  /** What line `i` adds to the features of the lines before it. */
  lemma SectionStep(lines: seq<string>, i: nat)
    requires i < |lines|
    ensures SectionFeatures(lines[..i + 1]) == SectionFeatures(lines[..i]) +
      (if SectionItem(lines[i]).Some? && Utf16Length(SectionItem(lines[i]).value) > 5 then [SectionItem(lines[i]).value] else [])
  {
    assert lines[..i + 1][..i] == lines[..i];
  }

  /** The fallback loop over the checkbox captures of the whole text. */
  method FallbackLoop(matches: seq<string>) returns (features: seq<string>)
    ensures features == Collections.Filter(matches, KeepFallback)
  {
    features := [];
    var i := 0;
    while i < |matches|
      invariant 0 <= i <= |matches|
      invariant features == Collections.Filter(matches[..i], KeepFallback)
    {
      assert matches[..i + 1][..i] == matches[..i];
      var feature := matches[i];
      if KeepFallback(feature) {
        features := features + [feature];
      }
      i := i + 1;
    }
    assert matches[..|matches|] == matches;
  }

  /** A features section with one bullet gives that bullet's text. */
  lemma OneBulletSection(t: string)
    requires ItemText(t) && t[0] != '-' && t[0] != '*' && t[0] != '['
    requires Utf16Length(Trim(t)) > 5
    ensures FeaturesList("## Features\n- " + t) == [Trim(t)]
  {
    var s := "## Features\n- " + t;
    NoSectionEnd(t);
    assert "## Features" + ("\n- " + t) == s;
    SectionAtStart("\n- " + t);
    assert FeaturesSection(s) == Some(s);
    SplitSection(t);
    TwoLineFeatures(t);
    assert SectionList(s) == [Trim(t)];
  }

  /** The heading line and one bullet line give that bullet's text. */
  lemma TwoLineFeatures(t: string)
    requires ItemText(t) && t[0] != '-' && t[0] != '*' && t[0] != '['
    requires Utf16Length(Trim(t)) > 5
    ensures SectionFeatures(["## Features", "- " + t]) == [Trim(t)]
  {
    var lines := ["## Features", "- " + t];
    assert lines[..1] == ["## Features"];
    assert lines[..1][..0] == [];
    HeadingLine();
    SectionDashItem(t);
  }

  lemma HeadingLine()
    ensures SectionItem("## Features") == None
  {
    var h := "## Features";
    assert LeadRun(h) == 0;
    assert h[0..] == h;
    assert !BoxAt(h, false);
  }

  lemma SplitSection(t: string)
    requires NoTerminator(t)
    ensures Split("## Features\n- " + t, '\n') == ["## Features", "- " + t]
  {
    assert '\n' !in "## Features";
    assert '\n' !in "- " + t by {
      assert forall k :: 0 <= k < |t| ==> !IsTerminator(t[k]);
    }
    assert "## Features\n- " + t == "## Features" + ['\n'] + ("- " + t);
    SplitFirst("## Features", "- " + t, '\n');
    SplitNone("- " + t, '\n');
  }

  lemma NoSectionEnd(t: string)
    requires NoTerminator(t)
    ensures !Contains("\n- " + t, "\n##")
  {
    var body := "\n- " + t;
    ContainsAt(body, "\n##");
    forall i | 0 <= i <= |body|
      ensures !StartsWith(body[i..], "\n##")
    {
      if i >= 3 && i < |body| {
        assert body[i..][0] == t[i - 3];
      } else if i == 0 {
        assert body[i..][1] == '-';
      } else if i < |body| {
        assert body[i..][0] != '\n';
      }
    }
  }

  /** `extractCompletedFeatures`' kept lines: ticked boxes longer than 10 that are not tasks or steps. */
  predicate KeepCompleted(f: string) {
    Utf16Length(f) > 10 && !StartsWith(f, "Task ") && !StartsWith(f, "Step ")
  }

  /** What one line adds: its feature, if it has one that is kept. */
  function Kept(line: string): seq<string> {
    match CompletedItem(line)
    case Some(f) => if KeepCompleted(f) then [f] else []
    case None => []
  }

  /** The completed features of a list of lines, in order. */
  function CompletedFeatures(lines: seq<string>): seq<string> {
    Collections.Collect(lines, Kept)
  }

  lemma KeptFacts(line: string)
    ensures |Kept(line)| <= 1
    ensures forall f :: f in Kept(line) ==> KeepCompleted(f) && CompletedItem(line) == Some(f)
    ensures CompletedItem(line).Some? && KeepCompleted(CompletedItem(line).value) ==> Kept(line) == [CompletedItem(line).value]
  {
  }

  /** Exactly the kept ticked lines are completed features. */
  lemma CompletedFeaturesAre(lines: seq<string>)
    ensures |CompletedFeatures(lines)| <= |lines|
    ensures forall k :: 0 <= k < |CompletedFeatures(lines)| ==> KeepCompleted(CompletedFeatures(lines)[k])
    ensures forall k :: 0 <= k < |CompletedFeatures(lines)| ==> exists i :: 0 <= i < |lines| && CompletedItem(lines[i]) == Some(CompletedFeatures(lines)[k])
    ensures forall i :: 0 <= i < |lines| && CompletedItem(lines[i]).Some? && KeepCompleted(CompletedItem(lines[i]).value) ==> CompletedItem(lines[i]).value in CompletedFeatures(lines)
  {
    var r := CompletedFeatures(lines);
    forall i | 0 <= i < |lines| ensures |Kept(lines[i])| <= 1 {
      KeptFacts(lines[i]);
    }
    Collections.CollectLength(lines, Kept);
    Collections.CollectFrom(lines, Kept);
    Collections.CollectCovers(lines, Kept);
    forall k | 0 <= k < |r|
      ensures KeepCompleted(r[k]) && exists i :: 0 <= i < |lines| && CompletedItem(lines[i]) == Some(r[k])
    {
      assert r[k] in r;
      var i :| 0 <= i < |lines| && r[k] in Kept(lines[i]);
      KeptFacts(lines[i]);
    }
    forall i | 0 <= i < |lines| && CompletedItem(lines[i]).Some? && KeepCompleted(CompletedItem(lines[i]).value)
      ensures CompletedItem(lines[i]).value in r
    {
      KeptFacts(lines[i]);
    }
  }

  /** `extractCompletedFeatures`. */
  method ExtractCompletedFeatures(content: string) returns (features: seq<string>)
    ensures features == CompletedFeatures(Split(content, '\n'))
  {
    features := [];
    var lines := Split(content, '\n');
    var i := 0;
    while i < |lines|
      invariant 0 <= i <= |lines|
      invariant features == CompletedFeatures(lines[..i])
    {
      Collections.CollectStep(lines, Kept, i);
      var m := CompletedItem(lines[i]);
      if m.Some? {
        var feature := m.value;
        if KeepCompleted(feature) {
          features := features + [feature];
        }
      }
      i := i + 1;
    }
    assert lines[..|lines|] == lines;
  }

  // ---------------------------------------------------------------------------
  // The plan

  /**
   * `parseImplementationPlan`: `read` is the text of the plan, `None` when
   * reading it throws, which gives the catch branch's defaults.
   */
  function ParseImplementationPlan(read: Option<string>, h: Heuristics): (r: (PlanFacts, seq<string>))
    ensures read.None? ==> r == (Unread, [])
    ensures r.0.tasksCompleted <= r.0.tasksTotal && r.0.completionPercentage <= 100
    ensures r.0.tasksTotal == 0 ==> r.0.completionPercentage == 0 && r.0.status != Completed
    ensures read.Some? ==> r.0.tasksTotal == CountBoxes(read.value, false) && r.0.tasksCompleted == CountBoxes(read.value, true)
    ensures read.Some? ==> r.0.priority == ExtractPriority(read.value) && r.1 == FeaturesList(read.value)
    ensures read.Some? ==> r.0.completionPercentage == Percent(r.0.tasksCompleted, r.0.tasksTotal)
    ensures read.Some? ==> r.0.status == PlanStatus(Plugin, read.value, r.0.completionPercentage)
    ensures read.Some? ==> r.0.effortEstimate == FirstMatch(h.effort, read.value) && r.0.targetDate == FirstMatch(h.target, read.value)
    ensures |r.1| <= 10
  {
    match read
    case None => (Unread, [])
    case Some(content) =>
      var f := Progress(Plugin, content);
      (f.(effortEstimate := FirstMatch(h.effort, content),
          targetDate := FirstMatch(h.target, content),
          priority := ExtractPriority(content)),
       FeaturesList(content))
  }

  /** `calculateCompletionPercentage` agrees with the plan parser's percentage. */
  function CalculateCompletionPercentage(content: string): (p: nat)
    ensures p <= 100
    ensures p == ParseImplementationPlan(Some(content), Heuristics(s => "", [], [])).0.completionPercentage
  {
    TickedAtMostAll(content);
    PercentAtMost100(CountBoxes(content, true), CountBoxes(content, false));
    Percent(CountBoxes(content, true), CountBoxes(content, false))
  }
}
