/**
 * The perseon copy's orchestrator `updateAppSpecs` and `formatResult`:
 * scan the specs directory, parse every record (a record whose parsing
 * throws is skipped), aggregate the statistics and write `app-specs.md`
 * through a temporary file. Unlike the plugin copy there is no empty check
 * and no cleanup: an empty scan writes a document with no features.
 *
 * The markdown renderer is the function `render`; the path the result
 * text names for the document is `outputFile`.
 */
module PerseonIndex {
  import opened Types
  import opened Text
  import opened Tree
  import opened Fs
  import opened Collections
  import opened Rules
  import opened Stats
  import opened PerseonParser
  import opened PerseonScanner
  import opened Output

  // ---------------------------------------------------------------------------
  // Step 2: parsing the records

  /** The argument `parseSpecification` gets for a file: none without one, else what reading it gives. */
  function FileArg(root: Node, spec: SpecMetadata, file: Option<string>): Option<Option<string>> {
    if file.Some? then Some(FileAt(root, [spec.name, file.value])) else None
  }

  /** `parseSpecification` on a record; `None` when it throws. */
  function FeatureOf(root: Node, spec: SpecMetadata, h: Heuristics): Option<Feature> {
    ParseSpecification(spec.name, spec.category, FileArg(root, spec, spec.requirementsFile),
                       FileArg(root, spec, spec.implementationFile), h)
  }

  function Parses(root: Node, h: Heuristics): SpecMetadata -> bool {
    spec => FeatureOf(root, spec, h).Some?
  }

  /** What the loop pushes for one record: its feature, or nothing when parsing it throws. */
  function Pushed(root: Node, h: Heuristics): SpecMetadata -> seq<Feature> {
    spec => var f := FeatureOf(root, spec, h); if f.Some? then [f.value] else []
  }

  /** What the loop of step 2 has pushed after the records `specs`. */
  function Parsed(root: Node, specs: seq<SpecMetadata>, h: Heuristics): seq<Feature> {
    Collect(specs, Pushed(root, h))
  }

  /**
   * The loop of step 2: a record whose `parseSpecification` throws is
   * reported and skipped, and the loop goes on.
   */
  method ParseSpecs(fs: FileSystem, specs: seq<SpecMetadata>, h: Heuristics) returns (features: seq<Feature>)
    ensures features == Parsed(fs.root, specs, h)
  {
    features := [];
    var i := 0;
    while i < |specs|
      invariant 0 <= i <= |specs|
      invariant features == Parsed(fs.root, specs[..i], h)
    {
      var spec := specs[i];
      var requirements := if spec.requirementsFile.Some? then Some(fs.ReadFile([spec.name, spec.requirementsFile.value])) else None;
      var implementation := if spec.implementationFile.Some? then Some(fs.ReadFile([spec.name, spec.implementationFile.value])) else None;
      var feature := ParseSpecification(spec.name, spec.category, requirements, implementation, h);
      CollectStep(specs, Pushed(fs.root, h), i);
      if feature.Some? {
        features := features + [feature.value];
      }
      i := i + 1;
    }
    assert specs[..i] == specs;
  }

  /** A record is skipped exactly when it names an implementation plan that cannot be read. */
  lemma Skipped(root: Node, spec: SpecMetadata, h: Heuristics)
    ensures FeatureOf(root, spec, h).None? <==> spec.implementationFile.Some? && FileAt(root, [spec.name, spec.implementationFile.value]).None?
  {
  }

  /** One feature per record that parses. */
  lemma {:induction false} ParsedCount(root: Node, specs: seq<SpecMetadata>, h: Heuristics)
    ensures |Parsed(root, specs, h)| == |Filter(specs, Parses(root, h))|
  {
    if specs != [] {
      var init := specs[..|specs| - 1];
      var last := specs[|specs| - 1];
      ParsedCount(root, init, h);
      assert Parsed(root, specs, h) == Parsed(root, init, h) + Pushed(root, h)(last);
      assert Filter(specs, Parses(root, h)) == Filter(init, Parses(root, h)) + (if Parses(root, h)(last) then [last] else []);
    }
  }

  /** Every record that parses has its feature among the results: the others do not stop the loop. */
  lemma ParsedCovers(root: Node, specs: seq<SpecMetadata>, h: Heuristics)
    ensures forall i :: 0 <= i < |specs| && FeatureOf(root, specs[i], h).Some? ==> FeatureOf(root, specs[i], h).value in Parsed(root, specs, h)
  {
    CollectCovers(specs, Pushed(root, h));
    forall i | 0 <= i < |specs| && FeatureOf(root, specs[i], h).Some?
      ensures FeatureOf(root, specs[i], h).value in Parsed(root, specs, h)
    {
      assert FeatureOf(root, specs[i], h).value in Pushed(root, h)(specs[i]);
    }
  }

  /** Every resulting feature is that of some record. */
  lemma ParsedFrom(root: Node, specs: seq<SpecMetadata>, h: Heuristics)
    ensures forall f :: f in Parsed(root, specs, h) ==> exists i :: 0 <= i < |specs| && FeatureOf(root, specs[i], h) == Some(f)
  {
    CollectFrom(specs, Pushed(root, h));
    forall f | f in Parsed(root, specs, h)
      ensures exists i :: 0 <= i < |specs| && FeatureOf(root, specs[i], h) == Some(f)
    {
      var i :| 0 <= i < |specs| && f in Pushed(root, h)(specs[i]);
      assert FeatureOf(root, specs[i], h) == Some(f);
    }
  }

  /** Every parsed feature ticks at most as many tasks as it has, so the overall percentage is at most 100. */
  lemma ParsedConsistent(root: Node, specs: seq<SpecMetadata>, h: Heuristics)
    ensures Consistent(Parsed(root, specs, h))
    ensures ReportOf(Parsed(root, specs, h)).completionPercentage <= 100
  {
    var r := Parsed(root, specs, h);
    ParsedFrom(root, specs, h);
    forall k | 0 <= k < |r|
      ensures r[k].tasksCompleted <= r[k].tasksTotal
    {
      assert r[k] in r;
      var i :| 0 <= i < |specs| && FeatureOf(root, specs[i], h) == Some(r[k]);
    }
  }

  // ---------------------------------------------------------------------------
  // The orchestrator

  /**
   * `updateAppSpecs()`. `fault` is the message of the error the write
   * throws when it fails, which the `catch` turns into the result; the
   * ghost `features` are the parsed features.
   */
  method UpdateAppSpecs(fs: FileSystem, h: Heuristics, render: seq<Feature> -> string, fault: string)
    returns (result: PerseonResult, ghost features: seq<Feature>)
    requires fs.Valid()
    modifies fs
    ensures fs.Valid()
    ensures features == Parsed(old(fs.root), Scan(old(fs.root).entries), h)
    ensures result.success ==> result == PerseonResult(true, ReportOf(features), None)
    ensures result.success ==> fs.ReadFile([OutputName]) == Some(render(features)) && Child(fs.root, TempName).None?
    ensures !result.success ==> result == PerseonResult(false, EmptyReport, Some(fault))
    ensures forall a :: a != TempName && a != OutputName ==> Child(fs.root, a) == old(Child(fs.root, a))
  {
    ghost var root0 := fs.root;
    var specs := ScanSpecsDirectory(fs);
    var parsed := ParseSpecs(fs, specs, h);
    features := parsed;
    var report := AggregateStatistics(parsed);
    var markdown := render(parsed);
    var ok := WriteOutput(fs, markdown);
    if !ok {
      result := PerseonResult(false, EmptyReport, Some(fault));
      return;
    }
    result := PerseonResult(true, report, None);
  }

  /** With no spec folder the run still goes on, and a successful one reports no features. */
  lemma EmptyScanReportsNothing(root: Node, h: Heuristics)
    requires root.Dir? && Scan(root.entries) == []
    ensures Parsed(root, Scan(root.entries), h) == []
    ensures ReportOf(Parsed(root, Scan(root.entries), h)) == EmptyReport
  {
  }

  // ---------------------------------------------------------------------------
  // formatResult

  /** What a template literal prints for `result.error`. */
  function ErrorText(error: Option<string>): string {
    match error
    case None => "undefined"
    case Some(e) => e
  }

  const Cross := "\U{274C}"
  const Tick := "\U{2705}"
  const Page := "\U{1F4C4}"

  /** The summary of a successful run, up to the document's path. */
  function SummaryLines(r: Report): string {
    " Updated app-specs.md:\n   - " + NatToString(r.featuresCount) + " features processed\n   - "
    + NatToString(r.completionPercentage) + "% overall completion\n   - "
    + NatToString(r.completed) + " completed, " + NatToString(r.inProgress) + " in progress, "
    + NatToString(r.planned) + " planned\n   - " + NatToString(|r.categories|) + " categories tracked\n\n"
    + Page + " File: "
  }

  lemma Affixes(head: string, middle: string, tail: string)
    ensures StartsWith(head + middle + tail, head) && EndsWith(head + middle + tail, tail)
  {
    assert (head + middle + tail)[..|head|] == head;
    assert (head + middle + tail)[|head + middle|..] == tail;
  }

  /**
   * `formatResult`: a failed run prints its error after a cross, a
   * successful one its summary, which starts with a newline and a tick and
   * ends with the document's path.
   */
  function FormatResult(result: PerseonResult, outputFile: string): (text: string)
    ensures !result.success ==> text == Cross + " Error: " + ErrorText(result.error)
    ensures result.success ==> StartsWith(text, "\n" + Tick) && EndsWith(text, outputFile + "\n")
  {
    if !result.success then Cross + " Error: " + ErrorText(result.error)
    else
      Affixes("\n" + Tick, SummaryLines(result.report), outputFile + "\n");
      "\n" + Tick + SummaryLines(result.report) + (outputFile + "\n")
  }

  /** The two kinds of text are told apart by their first character. */
  lemma FormatResultDistinguishes(r1: PerseonResult, r2: PerseonResult, outputFile: string)
    requires r1.success && !r2.success
    ensures FormatResult(r1, outputFile) != FormatResult(r2, outputFile)
  {
    assert FormatResult(r1, outputFile)[0] == '\n';
    assert FormatResult(r2, outputFile)[0] == Cross[0];
  }
}
