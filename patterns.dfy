/**
 * The regular expressions of the two parsers, written out as the matches
 * JavaScript's backtracking engine finds: leftmost start, greedy quantifiers
 * that give characters back only when the rest of the pattern fails. `\s` is
 * `Text.IsSpace`, `.` matches anything but `Text.IsTerminator`, and `^`/`$`
 * with the `m` flag match at line starts and before terminators.
 */
module Patterns {
  import opened Types
  import opened Text
  import Collections

  predicate IsSpaceOrDash(c: char) {
    IsSpace(c) || c == '-'
  }

  /** How many characters `[\s-]*` takes at the start of `s`. */
  function LeadRun(s: string): (n: nat)
    ensures n <= |s|
    ensures forall i :: 0 <= i < n ==> IsSpaceOrDash(s[i])
    ensures n < |s| ==> !IsSpaceOrDash(s[n])
  {
    if |s| > 0 && IsSpaceOrDash(s[0]) then 1 + LeadRun(s[1..]) else 0
  }

  /** How many characters `\s*` takes at the start of `s`. */
  function SpaceRun(s: string): (n: nat)
    ensures n <= |s|
    ensures forall i :: 0 <= i < n ==> IsSpace(s[i])
    ensures n < |s| ==> !IsSpace(s[n])
  {
    if |s| > 0 && IsSpace(s[0]) then 1 + SpaceRun(s[1..]) else 0
  }

  /** How many characters `.*` takes at the start of `s`. */
  function TextRun(s: string): (n: nat)
    ensures n <= |s|
    ensures forall i :: 0 <= i < n ==> !IsTerminator(s[i])
    ensures n < |s| ==> IsTerminator(s[n])
  {
    if |s| > 0 && !IsTerminator(s[0]) then 1 + TextRun(s[1..]) else 0
  }

  predicate NoTerminator(s: string) {
    forall i :: 0 <= i < |s| ==> !IsTerminator(s[i])
  }

  /** `\s*(.+)$` matches the whole of `s`: after giving back some leading spaces, a non-empty rest without terminators. */
  predicate TailOk(s: string)
    decreases |s|
  {
    (|s| > 0 && NoTerminator(s)) || (|s| > 0 && IsSpace(s[0]) && TailOk(s[1..]))
  }

  /** `\s+(.+)$` matches the whole of `s`. */
  predicate SpacedTailOk(s: string) {
    |s| > 0 && IsSpace(s[0]) && TailOk(s[1..])
  }

  /** A text without terminators that does not start with a space satisfies `(.+)$` at once. */
  lemma PlainTail(t: string)
    requires |t| > 0 && NoTerminator(t)
    ensures TailOk(t)
  {
  }

  /** `^` with the `m` flag. */
  predicate LineStart(s: string, i: nat)
    requires i <= |s|
  {
    i == 0 || IsTerminator(s[i - 1])
  }

  /** `[x]` or `[ ]`, and `[X]` too when `upper` (a character class or the `i` flag). */
  predicate BoxAt(s: string, upper: bool) {
    |s| >= 3 && s[0] == '[' && s[2] == ']' && (s[1] == 'x' || s[1] == ' ' || (upper && s[1] == 'X'))
  }

  // ---------------------------------------------------------------------------
  // `^#\s+(.+)$` with the m flag: the title of a requirements file

  predicate AllTerminators(s: string) {
    forall i :: 0 <= i < |s| ==> IsTerminator(s[i])
  }

  /**
   * The trimmed capture of a title match starting at `i`. When only spaces
   * follow the `#` up to the end of the text, `\s+` gives one back to `(.+)`
   * if any of them is not a terminator, and the title is empty.
   */
  function TitleAt(s: string, i: nat): (r: Option<string>)
    requires i <= |s|
    ensures r.Some? ==> LineStart(s, i) && i < |s| && s[i] == '#'
  {
    if !(LineStart(s, i) && i < |s| && s[i] == '#') then None
    else TitleAfterHash(s[i + 1..])
  }

  /** `\s+(.+)$` after the `#` of a heading, `u` being the rest of the text. */
  function TitleAfterHash(u: string): (r: Option<string>)
    ensures r.Some? ==> NoTerminator(r.value)
  {
    var m := SpaceRun(u);
    if m == 0 then None
    else if m < |u| then
      var n := TextRun(u[m..]);
      TrimKeepsText(u[m..m + n]);
      Some(Trim(u[m..m + n]))
    else if AllTerminators(u[1..]) then None
    else Some("")
  }

  lemma {:induction false} TrimKeepsText(s: string)
    requires NoTerminator(s)
    ensures NoTerminator(Trim(s))
  {
    TrimInfix(s);
  }

  lemma TrimInfix(s: string)
    ensures forall c :: c in Trim(s) ==> c in s
  {
    TrimStartInfix(s);
    TrimEndInfix(TrimStart(s));
  }

  lemma {:induction false} TrimStartInfix(s: string)
    ensures forall c :: c in TrimStart(s) ==> c in s
  {
    if |s| > 0 && IsSpace(s[0]) {
      TrimStartInfix(s[1..]);
    }
  }

  lemma {:induction false} TrimEndInfix(s: string)
    ensures forall c :: c in TrimEnd(s) ==> c in s
  {
    if |s| > 0 && IsSpace(s[|s| - 1]) {
      TrimEndInfix(s[..|s| - 1]);
    }
  }

  /** Where the first title match at or after `i` starts, or `|s|` when there is none. */
  function TitleStart(s: string, i: nat): (j: nat)
    requires i <= |s|
    ensures i <= j <= |s|
    ensures TitleAt(s, j).Some? || j == |s|
    ensures forall k :: i <= k < j ==> TitleAt(s, k).None?
  {
    var p := (k: nat) => k <= |s| && TitleAt(s, k).Some?;
    var j := Collections.FirstFrom(p, i, |s|);
    assert forall k :: i <= k < j ==> TitleAt(s, k).None? by {
      forall k | i <= k < j
        ensures TitleAt(s, k).None?
      {
        assert !p(k);
      }
    }
    j
  }

  /** `titleMatch ? titleMatch[1].trim() : 'Untitled Feature'`. */
  function Title(content: string): (r: string)
    ensures (forall k :: 0 <= k <= |content| ==> TitleAt(content, k).None?) ==> r == "Untitled Feature"
    ensures (exists k :: 0 <= k <= |content| && TitleAt(content, k).Some?) ==> NoTerminator(r)
  {
    match TitleAt(content, TitleStart(content, 0))
    case Some(t) => assert t == TitleAfterHash(content[TitleStart(content, 0) + 1..]).value; t
    case None => "Untitled Feature"
  }

  /** A first line `# ` followed by the title text gives that title. */
  lemma TitleOfFirstLine(t: string, rest: string)
    requires |t| > 0 && !IsSpace(t[0]) && NoTerminator(t)
    requires rest == [] || IsTerminator(rest[0])
    ensures Title("# " + t + rest) == Trim(t)
  {
    var s := "# " + t + rest;
    var u := s[1..];
    assert u[1..] == t + rest;
    assert SpaceRun(u[1..]) == 0;
    assert SpaceRun(u) == 1;
    TextRunOf(t, rest);
    assert u[1..1 + |t|] == t;
    assert TitleAfterHash(u) == Some(Trim(t));
    assert TitleAt(s, 0) == Some(Trim(t));
  }

  lemma {:induction false} TextRunOf(t: string, rest: string)
    requires NoTerminator(t)
    requires rest == [] || IsTerminator(rest[0])
    ensures TextRun(t + rest) == |t|
  {
    if t != [] {
      assert (t + rest)[1..] == t[1..] + rest;
      TextRunOf(t[1..], rest);
    } else {
      assert t + rest == rest;
    }
  }

  // ---------------------------------------------------------------------------
  // Feature lines

  /**
   * `^[\s-]*(?:\[(?:x| )\]\s+)?[-*]\s*(.+)$` on one line of the features
   * section, and the trimmed capture. The lead run is tried at its longest
   * first, with and then without the box; giving characters back can only
   * leave a `-` as the bullet, since a box never starts with a space or dash.
   */
  function SectionItem(line: string): (r: Option<string>)
  {
    var p := LeadRun(line);
    var rest := line[p..];
    if BoxAt(rest, false) && BoxedBullet(rest[3..]).Some? then BoxedBullet(rest[3..])
    else if p < |line| && line[p] == '*' && TailOk(line[p + 1..]) then Some(Trim(line[p + 1..]))
    else DashItem(line, p)
  }

  /** `\s+[-*]\s*(.+)$` after a box. */
  function BoxedBullet(s: string): (r: Option<string>)
  {
    var m := SpaceRun(s);
    if m >= 1 && m < |s| && (s[m] == '-' || s[m] == '*') && TailOk(s[m + 1..]) then Some(Trim(s[m + 1..]))
    else None
  }

  /** The lead run given back to length `k - 1` or less, with `line[k - 1]` as the `-` bullet. */
  function DashItem(line: string, k: nat): (r: Option<string>)
    requires k <= |line|
    decreases k
  {
    if k == 0 then None
    else if line[k - 1] == '-' && TailOk(line[k..]) then Some(Trim(line[k..]))
    else DashItem(line, k - 1)
  }

  /** `^[\s-]*\[x\]\s+(.+)$` with the `i` flag, on one line, and the trimmed capture. */
  function CompletedItem(line: string): (r: Option<string>)
  {
    var rest := line[LeadRun(line)..];
    if |rest| >= 3 && rest[0] == '[' && (rest[1] == 'x' || rest[1] == 'X') && rest[2] == ']' && SpacedTailOk(rest[3..])
    then Some(Trim(rest[3..]))
    else None
  }

  /**
   * `^[\s-]*[\-\*]\s+(?:\[[ xX]\]\s+)?(.+)$` on one line, and the trimmed
   * capture: a `*` bullet right after the lead run, or else a `-` given back
   * from it.
   */
  function BulletItem(line: string): (r: Option<string>)
  {
    var p := LeadRun(line);
    if p < |line| && line[p] == '*' && BulletRest(line[p + 1..]).Some? then BulletRest(line[p + 1..])
    else DashBullet(line, p)
  }

  function DashBullet(line: string, k: nat): (r: Option<string>)
    requires k <= |line|
    decreases k
  {
    if k == 0 then None
    else if line[k - 1] == '-' && BulletRest(line[k..]).Some? then BulletRest(line[k..])
    else DashBullet(line, k - 1)
  }

  /** `\s+(?:\[[ xX]\]\s+)?(.+)$` after the bullet. */
  function BulletRest(s: string): (r: Option<string>)
  {
    var m := SpaceRun(s);
    if m == 0 then None
    else if BoxAt(s[m..], true) && SpacedTailOk(s[m + 3..]) then Some(Trim(s[m + 3..]))
    else if SpacedTailOk(s) then Some(Trim(s))
    else None
  }

  // ---------------------------------------------------------------------------
  // Whole-text patterns of the plugin parser

  /**
   * A match of `/^[\s-]*\[(x| )\]\s+(.+)$/m` starting at `i`: the trimmed
   * capture and where the match ends. The lead run may cross line breaks.
   * When only spaces follow the box up to the end of the text, a match with
   * a blank capture is possible; it is left out, as the caller drops blank
   * captures and no later match can follow it.
   */
  function CheckboxAt(s: string, i: nat): (r: Option<(string, nat)>)
    requires i <= |s|
    ensures r.Some? ==> i < r.value.1 <= |s| && NoTerminator(r.value.0)
  {
    if !LineStart(s, i) then None else BoxMatch(s, i + LeadRun(s[i..]))
  }

  /** `\[(x| )\]\s+(.+)$` at `b`, where the lead run stopped. */
  function BoxMatch(s: string, b: nat): (r: Option<(string, nat)>)
    requires b <= |s|
    ensures r.Some? ==> b < r.value.1 <= |s| && NoTerminator(r.value.0)
  {
    if b + 3 <= |s| && s[b] == '[' && (s[b + 1] == 'x' || s[b + 1] == ' ') && s[b + 2] == ']' then
      var m := SpaceRun(s[b + 3..]);
      var t := b + 3 + m;
      if m >= 1 && t < |s| then
        var n := TextRun(s[t..]);
        TrimKeepsText(s[t..t + n]);
        Some((Trim(s[t..t + n]), t + n))
      else None
    else None
  }

  /** The trimmed captures of all matches from position `i` on, as `String.match` with the `g` flag lists them. */
  function CheckboxCaptures(s: string, i: nat): seq<string>
    requires i <= |s|
    decreases |s| - i
  {
    if i == |s| then []
    else match CheckboxAt(s, i)
      case Some((c, e)) => [c] + CheckboxCaptures(s, e)
      case None => CheckboxCaptures(s, i + 1)
  }

  /** Every capture lies within one line. */
  lemma {:induction false} CheckboxCapturesLines(s: string, i: nat)
    requires i <= |s|
    ensures forall k :: 0 <= k < |CheckboxCaptures(s, i)| ==> NoTerminator(CheckboxCaptures(s, i)[k])
    decreases |s| - i
  {
    if i < |s| {
      var m := CheckboxAt(s, i);
      if m.Some? {
        var rest := CheckboxCaptures(s, m.value.1);
        CheckboxCapturesLines(s, m.value.1);
        assert CheckboxCaptures(s, i) == [m.value.0] + rest;
        LinesCons(m.value.0, rest);
      } else {
        CheckboxCapturesLines(s, i + 1);
        assert CheckboxCaptures(s, i) == CheckboxCaptures(s, i + 1);
      }
    }
  }

  lemma LinesCons(x: string, r: seq<string>)
    requires NoTerminator(x) && forall k :: 0 <= k < |r| ==> NoTerminator(r[k])
    ensures forall k :: 0 <= k < |[x] + r| ==> NoTerminator(([x] + r)[k])
  {
    forall k | 0 <= k < |[x] + r|
      ensures NoTerminator(([x] + r)[k])
    {
      if k > 0 {
        assert ([x] + r)[k] == r[k - 1];
      }
    }
  }

  /** `##\s+(?:Features|What's Included)` at `i` of the lower-cased text: the position after the heading word. */
  function SectionHeadAt(low: string, i: nat): (r: Option<nat>)
    requires i <= |low|
    ensures r.Some? ==> i < r.value <= |low|
  {
    if i + 2 <= |low| && low[i] == '#' && low[i + 1] == '#' then
      var m := SpaceRun(low[i + 2..]);
      var k := i + 2 + m;
      if m >= 1 && StartsWith(low[k..], "features") then Some(k + 8)
      else if m >= 1 && StartsWith(low[k..], "what's included") then Some(k + 15)
      else None
    else None
  }

  /** The first section heading at or after `i`: where it starts and where its heading word ends. */
  function FindSection(low: string, i: nat): (r: Option<(nat, nat)>)
    requires i <= |low|
    ensures r.Some? ==> i <= r.value.0 < r.value.1 <= |low| && SectionHeadAt(low, r.value.0) == Some(r.value.1)
    ensures r.None? ==> forall k :: i <= k <= |low| ==> SectionHeadAt(low, k).None?
    decreases |low| - i
  {
    match SectionHeadAt(low, i)
    case Some(k) => Some((i, k))
    case None => if i == |low| then None else FindSection(low, i + 1)
  }

  /** `[\s\S]*?(?=\n##|$)`: the first position from `j` on that starts `\n##`, or the end. */
  function SectionEnd(s: string, j: nat): (e: nat)
    requires j <= |s|
    ensures j <= e <= |s|
    ensures e < |s| ==> StartsWith(s[e..], "\n##")
    ensures forall k :: j <= k < e ==> !StartsWith(s[k..], "\n##")
    decreases |s| - j
  {
    if j == |s| || StartsWith(s[j..], "\n##") then j else SectionEnd(s, j + 1)
  }

  /**
   * The match of `/##\s+(?:Features|What's Included)[\s\S]*?(?=\n##|$)/i`:
   * the heading is found in the lower-cased text, which keeps every index,
   * and the section is cut from the original text.
   */
  function FeaturesSection(content: string): (r: Option<string>)
    ensures r.Some? ==> StartsWith(r.value, "##")
  {
    var low := Lower(content);
    match FindSection(low, 0)
    case None => None
    case Some((start, k)) =>
      var e := SectionEnd(content, k);
      HeadingHashes(content, start, k, e);
      Some(content[start..e])
  }

  /** A heading found in the lower-cased text starts with `##` in the original too. */
  lemma HeadingHashes(content: string, start: nat, k: nat, e: nat)
    requires start <= |content| && SectionHeadAt(Lower(content), start) == Some(k) && k <= e <= |content|
    ensures start <= e && StartsWith(content[start..e], "##")
  {
    var low := Lower(content);
    assert low[start] == LowerChar(content[start]) && low[start + 1] == LowerChar(content[start + 1]);
    assert content[start..e][..2] == [content[start], content[start + 1]];
  }

  // ---------------------------------------------------------------------------
  // What the patterns make of the usual markdown lines

  /** A line of text: non-empty, without line breaks, not starting with a space. */
  predicate ItemText(t: string) {
    |t| > 0 && !IsSpace(t[0]) && NoTerminator(t)
  }

  lemma TrimAfterSpace(t: string)
    ensures Trim(" " + t) == Trim(t)
  {
    TrimSkipsLeadingSpace(" " + t, 1);
    assert (" " + t)[1..] == t;
  }

  lemma SpaceThenText(t: string)
    requires ItemText(t)
    ensures SpaceRun(" " + t) == 1 && SpacedTailOk(" " + t) && TailOk(" " + t)
  {
    assert (" " + t)[1..] == t;
  }

  /** `* text` in the features section gives the text. */
  lemma SectionStarItem(t: string)
    requires ItemText(t)
    ensures SectionItem("* " + t) == Some(Trim(t))
  {
    assert "* " + t == "*" + (" " + t);
    SpaceThenText(t);
    TrimAfterSpace(t);
    SectionItemStar(" " + t);
  }

  /** `- text` in the features section gives the text, unless the text itself starts like a box or a bullet. */
  lemma SectionDashItem(t: string)
    requires ItemText(t) && t[0] != '-' && t[0] != '*' && t[0] != '['
    ensures SectionItem("- " + t) == Some(Trim(t))
  {
    var line := "- " + t;
    assert line[2..] == t;
    assert line[2..][1..] == t[1..];
    assert LeadRun(line[2..]) == 0;
    assert line[1..][1..] == line[2..];
    assert LeadRun(line) == 2;
    assert line[1..] == " " + t;
    SpaceThenText(t);
    TrimAfterSpace(t);
  }

  /** A dash, a space and a box: the lead run stops at the box. */
  lemma BoxLineLead(c: char, t: string)
    ensures var line := ['-', ' ', '[', c, ']', ' '] + t;
            LeadRun(line) == 2 && line[2..] == ['[', c, ']', ' '] + t && line[1..] == " " + (['[', c, ']', ' '] + t)
  {
    var line := ['-', ' ', '[', c, ']', ' '] + t;
    var rest := ['[', c, ']', ' '] + t;
    assert line == "- " + rest;
    assert line[2..] == rest;
    assert LeadRun(rest) == 0;
    assert line[1..][1..] == line[2..];
  }

  /**
   * `- [x] text` in the features section keeps the box in the feature: the
   * optional box of the pattern comes before the bullet, so here the `-`
   * is the bullet and the box is part of the capture.
   */
  lemma SectionBoxKept(c: char, t: string)
    requires c == 'x' || c == ' ' || c == 'X'
    requires ItemText(t) && t[0] != '-' && t[0] != '*'
    ensures SectionItem(['-', ' ', '[', c, ']', ' '] + t) == Some(Trim(['[', c, ']', ' '] + t))
  {
    var line := ['-', ' ', '[', c, ']', ' '] + t;
    var rest := ['[', c, ']', ' '] + t;
    BoxLineLead(c, t);
    assert rest[3..] == " " + t;
    NoBulletAfterBox(t);
    SectionItemFallsToDash(line);
    DashBeforeBox(c, t);
  }

  /** After the box comes text, not a bullet. */
  lemma NoBulletAfterBox(t: string)
    requires ItemText(t) && t[0] != '-' && t[0] != '*'
    ensures BoxedBullet(" " + t).None?
  {
    SpaceThenText(t);
    assert (" " + t)[1] == t[0];
  }

  /** The leading `-` as the bullet, with the box and the text as the capture. */
  lemma DashBeforeBox(c: char, t: string)
    requires c == 'x' || c == ' ' || c == 'X'
    requires ItemText(t)
    ensures DashItem(['-', ' ', '[', c, ']', ' '] + t, 2) == Some(Trim(['[', c, ']', ' '] + t))
  {
    var line := ['-', ' ', '[', c, ']', ' '] + t;
    var rest := ['[', c, ']', ' '] + t;
    BoxLineLead(c, t);
    assert ItemText(rest);
    SpaceThenText(rest);
    TrimAfterSpace(rest);
    assert line[1] == ' ' && line[0] == '-';
  }

  /** Without a boxed or a `*` bullet after the lead run, only a `-` inside the run can be the bullet. */
  lemma SectionItemFallsToDash(line: string)
    requires var p := LeadRun(line);
             !(BoxAt(line[p..], false) && BoxedBullet(line[p..][3..]).Some?) && !(p < |line| && line[p] == '*')
    ensures SectionItem(line) == DashItem(line, LeadRun(line))
  {
  }

  /** A box written before the bullet is dropped: `[x] - text` gives the text. */
  lemma SectionBoxFirst(c: char, t: string)
    requires c == 'x' || c == ' '
    requires ItemText(t)
    ensures SectionItem(['[', c, ']', ' ', '-', ' '] + t) == Some(Trim(t))
  {
    var box := ['[', c, ']'];
    assert ['[', c, ']', ' ', '-', ' '] + t == box + (" - " + t);
    DashedText(t);
    SectionItemBoxed(box, " - " + t);
  }

  /** A box at the start of a line, then a bullet: the boxed capture. */
  lemma SectionItemBoxed(box: string, b: string)
    requires |box| == 3 && BoxAt(box, false) && BoxedBullet(b).Some?
    ensures SectionItem(box + b) == BoxedBullet(b)
  {
    var line := box + b;
    assert LeadRun(line) == 0 by {
      assert line[0] == '[';
    }
    assert line[0..][3..] == b;
    assert BoxAt(line[0..], false);
  }

  /** A `*` right after the lead run, not a box: the `*` bullet's capture. */
  lemma SectionItemStar(b: string)
    requires TailOk(b)
    ensures SectionItem("*" + b) == Some(Trim(b))
  {
    var line := "*" + b;
    assert LeadRun(line) == 0 by {
      assert line[0] == '*';
    }
    assert line[0..] == line && line[1..] == b;
    assert !BoxAt(line, false);
  }

  /** After a box, ` - text` is a dash bullet with the text. */
  lemma DashedText(t: string)
    requires ItemText(t)
    ensures BoxedBullet(" - " + t) == Some(Trim(t))
  {
    var b := " - " + t;
    assert b[1..] == "- " + t;
    assert b[1..][1..] == " " + t;
    assert SpaceRun(b[1..]) == 0;
    assert SpaceRun(b) == 1;
    assert b[2..] == " " + t;
    SpaceThenText(t);
    TrimAfterSpace(t);
  }

  /** `- [x] text` and `- [X] text` are completed features; `- [ ] text` is not. */
  lemma CompletedItemOf(c: char, t: string)
    requires c == 'x' || c == 'X' || c == ' '
    requires ItemText(t)
    ensures CompletedItem(['-', ' ', '[', c, ']', ' '] + t) == (if c == ' ' then None else Some(Trim(t)))
  {
    var line := ['-', ' ', '[', c, ']', ' '] + t;
    var rest := ['[', c, ']', ' '] + t;
    BoxLineLead(c, t);
    assert rest[3..] == " " + t;
    SpaceThenText(t);
    TrimAfterSpace(t);
    assert line[LeadRun(line)..] == rest;
    assert rest[1] == c;
  }

  /** `- text` is a bullet of the perseon parser. */
  lemma BulletDashItem(t: string)
    requires ItemText(t) && t[0] != '-' && t[0] != '*' && !BoxAt(t, true)
    ensures BulletItem("- " + t) == Some(Trim(t))
  {
    var line := "- " + t;
    assert line[2..] == t;
    assert LeadRun(t) == 0;
    assert line[1..][1..] == line[2..];
    assert LeadRun(line) == 2;
    assert line[1..] == " " + t;
    SpaceThenText(t);
    assert (" " + t)[1..] == t;
    TrimAfterSpace(t);
  }

  /** `- [ ] text`, `- [x] text` and `- [X] text` are bullets whose box is dropped. */
  lemma BulletBoxItem(c: char, t: string)
    requires c == 'x' || c == 'X' || c == ' '
    requires ItemText(t)
    ensures BulletItem(['-', ' ', '[', c, ']', ' '] + t) == Some(Trim(t))
  {
    var line := ['-', ' ', '[', c, ']', ' '] + t;
    var rest := ['[', c, ']', ' '] + t;
    BoxLineLead(c, t);
    BoxAfterSpace(c, t);
    assert DashBullet(line, 1) == Some(Trim(t));
    assert line[2] == '[';
  }

  /** The part of a box bullet after its dash. */
  lemma BoxAfterSpace(c: char, t: string)
    requires c == 'x' || c == 'X' || c == ' '
    requires ItemText(t)
    ensures BulletRest(" " + (['[', c, ']', ' '] + t)) == Some(Trim(t))
  {
    var rest := ['[', c, ']', ' '] + t;
    var after := " " + rest;
    assert after[1..] == rest;
    assert SpaceRun(rest) == 0;
    assert SpaceRun(after) == 1;
    assert after[1..][..3] == ['[', c, ']'];
    assert after[4..] == " " + t;
    SpaceThenText(t);
    TrimAfterSpace(t);
    assert BoxAt(after[1..], true);
  }

  /** A box line on its own is found by the fallback scan of the whole text. */
  lemma CheckboxLine(c: char, t: string)
    requires c == 'x' || c == ' '
    requires ItemText(t)
    ensures CheckboxCaptures(['-', ' ', '[', c, ']', ' '] + t, 0) == [Trim(t)]
  {
    var s := ['-', ' ', '[', c, ']', ' '] + t;
    BoxLineLead(c, t);
    assert s[5..] == " " + t && s[6..] == t + [];
    assert SpaceRun(s[5..]) == 1 by {
      assert s[5..][1..] == t;
      assert SpaceRun(t) == 0;
    }
    TextRunOf(t, []);
    CheckboxAtStart(s, 2);
    assert CheckboxCaptures(s, |s|) == [];
  }

  /** A box right after the lead run at the start of the text, one space and then text to the end: one match. */
  lemma CheckboxAtStart(s: string, b: nat)
    requires b == LeadRun(s) && b + 4 < |s|
    requires s[b] == '[' && (s[b + 1] == 'x' || s[b + 1] == ' ') && s[b + 2] == ']'
    requires SpaceRun(s[b + 3..]) == 1 && TextRun(s[b + 4..]) == |s| - (b + 4)
    ensures CheckboxAt(s, 0) == Some((Trim(s[b + 4..]), |s|))
  {
    assert s[0..] == s;
    assert CheckboxAt(s, 0) == BoxMatch(s, b);
    BoxMatchOne(s, b);
  }

  lemma BoxMatchOne(s: string, b: nat)
    requires b + 4 < |s|
    requires s[b] == '[' && (s[b + 1] == 'x' || s[b + 1] == ' ') && s[b + 2] == ']'
    requires SpaceRun(s[b + 3..]) == 1 && TextRun(s[b + 4..]) == |s| - (b + 4)
    ensures BoxMatch(s, b) == Some((Trim(s[b + 4..]), |s|))
  {
    var m := SpaceRun(s[b + 3..]);
    var t := b + 3 + m;
    assert t == b + 4 && t < |s|;
    var u := s[t..];
    var n := TextRun(u);
    assert t + n == |s|;
    assert s[t..t + n] == u;
  }

  lemma FeaturesHeadingFound(body: string)
    ensures FindSection(Lower("## Features" + body), 0) == Some((0, 11))
  {
    var s := "## Features" + body;
    var low := Lower(s);
    assert low[..11] == "## features";
    assert low[2..][1..] == low[3..];
    assert low[3] == 'f';
    assert SpaceRun(low[3..]) == 0;
    assert SpaceRun(low[2..]) == 1;
    assert low[3..][..8] == "features";
  }

  /** A features heading at the start of the text opens a section that runs up to the next `\n##`. */
  lemma SectionAtStart(body: string)
    requires !Contains(body, "\n##")
    ensures FeaturesSection("## Features" + body) == Some("## Features" + body)
  {
    var s := "## Features" + body;
    FeaturesHeadingFound(body);
    var e := SectionEnd(s, 11);
    if e < |s| {
      assert s[e..] == body[e - 11..];
      ContainsAt(body, "\n##");
    }
    assert s[0..|s|] == s;
  }
}
