/**
 * The records the generator passes between its stages. Both copies of the
 * generator (the plugin's and the one kept inside the perseon specs folder)
 * declare the same records; the result record of the plugin carries the
 * archive and cleanup fields on top.
 */
module Types {

  datatype Option<T> = None | Some(value: T)

  /** Which copy of the generator a shared rule belongs to. */
  datatype Variant = Plugin | Perseon

  datatype Status = Completed | InProgress | Planned | NotStarted

  datatype Priority = Critical | High | Medium | Low

  /**
   * A spec folder found by the scanner. The folder lies at `name` inside the
   * specs directory, so the files are recorded by their entry names inside it.
   */
  datatype SpecMetadata = SpecMetadata(
    name: string,
    category: string,
    requirementsFile: Option<string>,
    implementationFile: Option<string>,
    supplementaryFiles: seq<string>)

  datatype Feature = Feature(
    title: string,
    description: string,
    status: Status,
    category: string,
    completionPercentage: nat,
    tasksTotal: nat,
    tasksCompleted: nat,
    effortEstimate: Option<string>,
    targetDate: Option<string>,
    priority: Option<Priority>,
    implementationPlanLink: string,
    features: seq<string>)

  /** The counters both result records share. `categories` keeps the order in which categories were first met. */
  datatype Report = Report(
    featuresCount: nat,
    completionPercentage: nat,
    completed: nat,
    inProgress: nat,
    planned: nat,
    categories: seq<(string, nat)>)

  const EmptyReport := Report(0, 0, 0, 0, 0, [])

  /** The plugin's `GenerationResult`; `archivePath` is relative to the specs directory. */
  datatype PluginResult = PluginResult(
    success: bool,
    report: Report,
    archivePath: Option<seq<string>>,
    foldersArchived: nat,
    foldersRemoved: nat,
    cleanupSucceeded: bool,
    rollbackPerformed: bool,
    error: Option<string>)

  /** The perseon copy's `GenerationResult`. */
  datatype PerseonResult = PerseonResult(
    success: bool,
    report: Report,
    error: Option<string>)

  datatype CategoryProgress = CategoryProgress(
    name: string,
    completionPercentage: nat,
    completed: nat,
    inProgress: nat,
    planned: nat,
    total: nat)

  /** A database model as the schema section sees it: its name and the domain it is filed under. */
  datatype DatabaseModel = DatabaseModel(name: string, fields: seq<string>, relationships: seq<string>, domain: string)

  /** The names of a list of spec records, in order. */
  function Names(specs: seq<SpecMetadata>): (r: seq<string>)
    ensures |r| == |specs|
    ensures forall k :: 0 <= k < |specs| ==> r[k] == specs[k].name
  {
    if specs == [] then [] else [specs[0].name] + Names(specs[1..])
  }

  lemma SpecNamesSnoc(specs: seq<SpecMetadata>, s: SpecMetadata)
    ensures Names(specs + [s]) == Names(specs) + [s.name]
  {
    assert |Names(specs + [s])| == |Names(specs) + [s.name]|;
  }

  predicate Distinct<T(==)>(xs: seq<T>) {
    forall i, j :: 0 <= i < j < |xs| ==> xs[i] != xs[j]
  }
}
