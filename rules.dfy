/**
 * The two kinds of first-match cascades the generator uses: keyword rules
 * (`if (name.includes(..) || ..) return category`, falling through to `'Other'`)
 * and ordered pattern lists (`for (const pattern of patterns) { if (match)
 * return match[1].trim() }`).
 */
module Rules {
  import opened Types
  import opened Text

  /** A category, the words any of which selects it, and words none of which may occur. */
  datatype Rule = Rule(category: string, anyOf: seq<string>, noneOf: seq<string>)

  /** `words.some(w => text.includes(w))`, as the chain of `||` tests. */
  predicate ContainsAny(text: string, words: seq<string>)
    decreases |words|
  {
    |words| > 0 && (Contains(text, words[0]) || ContainsAny(text, words[1..]))
  }

  lemma {:induction false} ContainsAnyIff(text: string, words: seq<string>)
    ensures ContainsAny(text, words) <==> exists k :: 0 <= k < |words| && Contains(text, words[k])
    decreases |words|
  {
    if |words| > 0 {
      ContainsAnyIff(text, words[1..]);
      assert forall k :: 1 <= k < |words| ==> words[1..][k - 1] == words[k];
      if exists k :: 0 <= k < |words| && Contains(text, words[k]) {
        var k :| 0 <= k < |words| && Contains(text, words[k]);
        if k > 0 {
          assert Contains(text, words[1..][k - 1]);
        }
      }
    }
  }

  predicate Applies(r: Rule, text: string) {
    ContainsAny(text, r.anyOf) && !ContainsAny(text, r.noneOf)
  }

  /** The index of the first rule that applies, or `|rules|` when none does. */
  function FirstRule(rules: seq<Rule>, text: string): (k: nat)
    ensures k <= |rules|
    ensures k < |rules| ==> Applies(rules[k], text)
    ensures forall j :: 0 <= j < k ==> !Applies(rules[j], text)
    decreases |rules|
  {
    if rules == [] then 0
    else if Applies(rules[0], text) then 0
    else 1 + FirstRule(rules[1..], text)
  }

  /** The category of the first rule that applies to `text`, else `"Other"`. */
  function Classify(rules: seq<Rule>, text: string): (r: string)
    ensures (forall j :: 0 <= j < |rules| ==> !Applies(rules[j], text)) ==> r == "Other"
    ensures forall j :: 0 <= j < |rules| && Applies(rules[j], text) && (forall i :: 0 <= i < j ==> !Applies(rules[i], text)) ==> r == rules[j].category
  {
    var k := FirstRule(rules, text);
    if k < |rules| then rules[k].category else "Other"
  }

  /** Rules whose categories are all different from each other and from `"Other"`. */
  predicate DistinctCategories(rules: seq<Rule>) {
    (forall j :: 0 <= j < |rules| ==> rules[j].category != "Other") &&
    (forall i, j :: 0 <= i < j < |rules| ==> rules[i].category != rules[j].category)
  }

  /**
   * Categories that differ from each other and from `Other` already in the
   * letters at positions `a` and `b` are distinct.
   */
  lemma DistinctByLetters(rules: seq<Rule>, a: nat, b: nat)
    requires a < 5 && b < 5
    requires forall j :: 0 <= j < |rules| ==>
               |rules[j].category| > a && |rules[j].category| > b &&
               (rules[j].category[a], rules[j].category[b]) != ("Other"[a], "Other"[b])
    requires forall i, j :: 0 <= i < j < |rules| ==>
               (rules[i].category[a], rules[i].category[b]) != (rules[j].category[a], rules[j].category[b])
    ensures DistinctCategories(rules)
  {
  }

  /** With distinct categories, a category names exactly the first rule that applies. */
  lemma ClassifyCategory(rules: seq<Rule>, text: string, j: nat)
    requires DistinctCategories(rules) && j < |rules|
    ensures Classify(rules, text) == rules[j].category <==> Applies(rules[j], text) && forall i :: 0 <= i < j ==> !Applies(rules[i], text)
  {
    var k := FirstRule(rules, text);
    if Classify(rules, text) == rules[j].category {
      assert k < |rules|;
      assert rules[k].category == rules[j].category;
      assert k == j;
    }
  }

  /** When no rule is named `Other`, `Other` means that no rule applies. */
  lemma ClassifyOther(rules: seq<Rule>, text: string)
    requires forall j :: 0 <= j < |rules| ==> rules[j].category != "Other"
    ensures Classify(rules, text) == "Other" <==> forall j :: 0 <= j < |rules| ==> !Applies(rules[j], text)
  {
    var k := FirstRule(rules, text);
    if k < |rules| {
      assert rules[k].category != "Other";
    }
  }

  /** An occurrence of a text is an occurrence of every piece of it. */
  lemma ContainsInfix(s: string, a: string, b: string, c: string)
    requires Contains(s, a + b + c)
    ensures Contains(s, b)
  {
    ContainsAt(s, a + b + c);
    var i :| 0 <= i <= |s| && StartsWith(s[i..], a + b + c);
    var w := a + b + c;
    assert s[i..][..|w|] == w;
    assert s[i + |a|..][..|b|] == s[i..][..|w|][|a|..|a| + |b|];
    assert w[|a|..|a| + |b|] == b;
    assert StartsWith(s[i + |a|..], b);
    ContainsAt(s, b);
  }

  // ---------------------------------------------------------------------------
  // Ordered pattern lists

  /** The index of the first pattern that matches `content`, or `|patterns|`. */
  function FirstPattern(patterns: seq<string -> Option<string>>, content: string): (k: nat)
    ensures k <= |patterns|
    ensures k < |patterns| ==> patterns[k](content).Some?
    ensures forall j :: 0 <= j < k ==> patterns[j](content).None?
    decreases |patterns|
  {
    if patterns == [] then 0
    else if patterns[0](content).Some? then 0
    else 1 + FirstPattern(patterns[1..], content)
  }

  /** The trimmed capture of the first pattern that matches, or nothing when none matches. */
  function FirstMatch(patterns: seq<string -> Option<string>>, content: string): (r: Option<string>)
    ensures r.None? <==> forall j :: 0 <= j < |patterns| ==> patterns[j](content).None?
    ensures forall j :: 0 <= j < |patterns| && patterns[j](content).Some? && (forall i :: 0 <= i < j ==> patterns[i](content).None?) ==> r == Some(Trim(patterns[j](content).value))
  {
    var k := FirstPattern(patterns, content);
    if k < |patterns| then Some(Trim(patterns[k](content).value)) else None
  }

  /**
   * The heuristics of a parser copy that are kept opaque: the description
   * extraction of a requirements file and the pattern lists for the effort
   * estimate and the target date of a plan.
   */
  datatype Heuristics = Heuristics(
    description: string -> string,
    effort: seq<string -> Option<string>>,
    target: seq<string -> Option<string>>)
}
