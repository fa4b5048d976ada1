/**
 * The two fixed regular expressions of `actionable_id`, as Python's `re.search`
 * runs them, written as hand-made matchers over ASCII character classes:
 *
 *   DOI    10.\d{4,9}\/[\S]+$
 *   ORCID  \d{4}-\d{4}-\d{4}-\w{4}
 *
 * Each matcher follows the engine (greedy repetitions, backtracking where it
 * could change the outcome, `$` without MULTILINE) and is proved equal to a
 * declarative description of the text the pattern accepts. `Search` tries the
 * start positions from left to right, as `re.search` does.
 */
module Regex {
  import opened Wrappers
  import opened Ascii

  /** The character classes the two patterns use. */
  datatype CharClass = Digit | Word | NonSpace

  predicate InClass(c: char, cls: CharClass) {
    match cls
    case Digit => IsDigit(c)
    case Word => IsWord(c)
    case NonSpace => !IsSpace(c)
  }

  /** The greedy repetition `cls{0,max}` tried at `i`: how many characters it takes. */
  function Run(s: string, i: nat, max: nat, cls: CharClass): (n: nat)
    requires i <= |s|
    ensures n <= max && i + n <= |s|
    decreases max
  {
    if max == 0 || i == |s| || !InClass(s[i], cls) then 0
    else 1 + Run(s, i + 1, max - 1, cls)
  }

  /** The run is greedy: every character it takes is in the class, and it stops
      short of `max` only at the end of the text or at a character outside it. */
  lemma {:induction false} RunMeaning(s: string, i: nat, max: nat, cls: CharClass)
    requires i <= |s|
    ensures forall k :: i <= k < i + Run(s, i, max, cls) ==> InClass(s[k], cls)
    ensures Run(s, i, max, cls) < max && i + Run(s, i, max, cls) < |s| ==>
      !InClass(s[i + Run(s, i, max, cls)], cls)
    decreases max
  {
    if !(max == 0 || i == |s| || !InClass(s[i], cls)) {
      RunMeaning(s, i + 1, max - 1, cls);
    }
  }

  /** A run of `n` characters of the class, with `n <= max`, is taken whole. */
  lemma RunCovers(s: string, i: nat, max: nat, cls: CharClass, n: nat)
    requires i + n <= |s| && n <= max
    requires forall k :: i <= k < i + n ==> InClass(s[k], cls)
    ensures Run(s, i, max, cls) >= n
  {
    RunMeaning(s, i, max, cls);
  }

  /** `$` without MULTILINE: at the end of the text, or just before a final newline. */
  predicate AtDollar(s: string, j: nat) {
    j == |s| || (j + 1 == |s| && s[j] == '\n')
  }

  /** Where a match that must run to `$` and cannot contain a newline ends:
      before a final newline if there is one, else at the end of the text. */
  function DollarEnd(s: string): (e: nat)
    ensures e <= |s| && AtDollar(s, e)
    ensures e < |s| ==> s[e] == '\n'
  {
    if |s| > 0 && s[|s| - 1] == '\n' then |s| - 1 else |s|
  }

  /** The tail `[\S]+$` of the DOI pattern tried at `start`. Backtracking the
      greedy run only ends it before a non-newline character, where `$` cannot
      match, so the greedy choice is the only one that can succeed. */
  function MatchDoiTail(s: string, start: nat): (r: Option<nat>)
    requires start <= |s|
    ensures r.Some? ==> start < r.value <= |s|
  {
    var tail := Run(s, start, |s| - start, NonSpace);
    if 1 <= tail && AtDollar(s, start + tail) then Some(start + tail) else None
  }

  /** The DOI pattern tried at `i`: the end of the match, if there is one. The
      `.` after `10` is an unescaped wildcard, so it takes any non-newline
      character. Backtracking `\d{4,9}` to fewer digits leaves a digit where the
      slash must be, so the greedy choice is the only one that can succeed. */
  function MatchDoiAt(s: string, i: nat): (r: Option<nat>)
    requires i <= |s|
    ensures r.Some? ==> i < r.value <= |s|
  {
    if i + 3 <= |s| && s[i] == '1' && s[i + 1] == '0' && s[i + 2] != '\n' then
      var digits := Run(s, i + 3, 9, Digit);
      var slash := i + 3 + digits;
      if 4 <= digits && slash < |s| && s[slash] == '/' then MatchDoiTail(s, slash + 1) else None
    else None
  }

  /** The ORCID pattern tried at `i`: fixed-count groups, so no backtracking. */
  function MatchOrcidAt(s: string, i: nat): (r: Option<nat>)
    requires i <= |s|
    ensures r.Some? ==> i < r.value <= |s|
  {
    if && Run(s, i, 4, Digit) == 4 && i + 4 < |s| && s[i + 4] == '-'
       && Run(s, i + 5, 4, Digit) == 4 && i + 9 < |s| && s[i + 9] == '-'
       && Run(s, i + 10, 4, Digit) == 4 && i + 14 < |s| && s[i + 14] == '-'
       && Run(s, i + 15, 4, Word) == 4
    then Some(i + 19)
    else None
  }

  /** `s[i..e]` is what the DOI pattern accepts as a whole, with `k` digits after
      the wildcard: `10`, one non-newline character, `k` digits, a slash, then one
      or more non-whitespace characters. */
  predicate DoiShapeIn(s: string, i: nat, e: nat, k: nat)
    requires i <= e <= |s|
  {
    && i + k + 5 <= e
    && s[i] == '1' && s[i + 1] == '0' && s[i + 2] != '\n'
    && (forall m :: i + 3 <= m < i + 3 + k ==> IsDigit(s[m]))
    && s[i + 3 + k] == '/'
    && (forall m :: i + 4 + k <= m < e ==> !IsSpace(s[m]))
  }

  /** A whole text the DOI pattern accepts. */
  predicate DoiShape(t: string) {
    exists k :: 4 <= k <= 9 && DoiShapeIn(t, 0, |t|, k)
  }

  /** The 19 characters from `i` are what the ORCID pattern accepts: hyphens at
      offsets 4, 9 and 14, digits in the first three groups and word characters
      in the last. */
  predicate OrcidShapeIn(s: string, i: nat)
    requires i + 19 <= |s|
  {
    && s[i + 4] == '-' && s[i + 9] == '-' && s[i + 14] == '-'
    && (forall m :: i <= m < i + 15 && m != i + 4 && m != i + 9 && m != i + 14 ==> IsDigit(s[m]))
    && (forall m :: i + 15 <= m < i + 19 ==> IsWord(s[m]))
  }

  /** A whole text the ORCID pattern accepts. */
  predicate OrcidShape(t: string) {
    |t| == 19 && OrcidShapeIn(t, 0)
  }

  /** The text from `i` up to `$` has the DOI shape. */
  predicate DoiAt(s: string, i: nat) {
    i <= DollarEnd(s) && exists k :: 4 <= k <= 9 && DoiShapeIn(s, i, DollarEnd(s), k)
  }

  /** The shape test in place agrees with the test on the cut-out text. */
  lemma DoiShapeInSlice(s: string, i: nat, e: nat, k: nat)
    requires i <= e <= |s|
    ensures DoiShapeIn(s, i, e, k) <==> DoiShapeIn(s[i..e], 0, e - i, k)
  {
    var t := s[i..e];
    assert forall m :: 0 <= m < |t| ==> t[m] == s[i + m];
    if DoiShapeIn(t, 0, e - i, k) {
      forall m | i + 3 <= m < i + 3 + k
        ensures IsDigit(s[m])
      {
        assert t[m - i] == s[m];
      }
      forall m | i + 4 + k <= m < e
        ensures !IsSpace(s[m])
      {
        assert t[m - i] == s[m];
      }
    }
  }

  /** `DoiAt` is the DOI shape of the text cut out from `i` up to `$`. */
  lemma DoiAtMeaning(s: string, i: nat)
    ensures DoiAt(s, i) <==> i <= DollarEnd(s) && DoiShape(s[i..DollarEnd(s)])
  {
    var e := DollarEnd(s);
    if i <= e {
      forall k | 4 <= k <= 9
        ensures DoiShapeIn(s, i, e, k) <==> DoiShapeIn(s[i..e], 0, |s[i..e]|, k)
      {
        DoiShapeInSlice(s, i, e, k);
      }
    }
  }

  /** The 19 characters from `i` have the ORCID shape. */
  predicate OrcidAt(s: string, i: nat) {
    i + 19 <= |s| && OrcidShapeIn(s, i)
  }

  /** `OrcidAt` is the ORCID shape of the 19 characters cut out from `i`. */
  lemma OrcidAtMeaning(s: string, i: nat)
    ensures OrcidAt(s, i) <==> i + 19 <= |s| && OrcidShape(s[i..i + 19])
  {
    if i + 19 <= |s| {
      var t := s[i..i + 19];
      assert forall m :: 0 <= m < 19 ==> t[m] == s[i + m];
      if OrcidShape(t) {
        forall m | i <= m < i + 15 && m != i + 4 && m != i + 9 && m != i + 14
          ensures IsDigit(s[m])
        {
          assert t[m - i] == s[m];
        }
        forall m | i + 15 <= m < i + 19
          ensures IsWord(s[m])
        {
          assert t[m - i] == s[m];
        }
      }
    }
  }

  /** The tail matches exactly when everything from `start` up to `$` is
      non-whitespace and not empty, and the match then ends at `$`. */
  lemma MatchDoiTailMeaning(s: string, start: nat)
    requires start <= |s|
    ensures MatchDoiTail(s, start).Some? <==>
      start < DollarEnd(s) && forall m :: start <= m < DollarEnd(s) ==> !IsSpace(s[m])
    ensures MatchDoiTail(s, start).Some? ==> MatchDoiTail(s, start).value == DollarEnd(s)
  {
    var e := DollarEnd(s);
    var max := |s| - start;
    RunMeaning(s, start, max, NonSpace);
    if start < e && forall m :: start <= m < e ==> !IsSpace(s[m]) {
      RunCovers(s, start, max, NonSpace, e - start);
    }
  }

  /** A slash after `k` digits, `k` at most 9, stops the digit run at `k`. */
  lemma DigitsBeforeSlash(s: string, p: nat, k: nat)
    requires p + k < |s| && k <= 9 && s[p + k] == '/'
    requires forall m :: p <= m < p + k ==> IsDigit(s[m])
    ensures Run(s, p, 9, Digit) == k
  {
    RunMeaning(s, p, 9, Digit);
    RunCovers(s, p, 9, Digit, k);
  }

  /** Every match of the DOI matcher is a DOI-shaped text ending at `$`. */
  lemma MatchDoiAtSound(s: string, i: nat)
    requires i <= |s| && MatchDoiAt(s, i).Some?
    ensures DoiAt(s, i) && MatchDoiAt(s, i).value == DollarEnd(s)
  {
    var digits := Run(s, i + 3, 9, Digit);
    RunMeaning(s, i + 3, 9, Digit);
    MatchDoiTailMeaning(s, i + 4 + digits);
    assert DoiShapeIn(s, i, DollarEnd(s), digits);
  }

  /** The DOI matcher accepts at every start of a DOI-shaped text ending at `$`. */
  lemma MatchDoiAtComplete(s: string, i: nat)
    requires DoiAt(s, i)
    ensures MatchDoiAt(s, i).Some?
  {
    var k :| 4 <= k <= 9 && DoiShapeIn(s, i, DollarEnd(s), k);
    DigitsBeforeSlash(s, i + 3, k);
    MatchDoiTailMeaning(s, i + 4 + k);
  }

  /** The DOI matcher accepts at `i` exactly when the text from `i` up to `$` has
      the DOI shape, and its match always ends at `$`. */
  lemma MatchDoiAtMeaning(s: string, i: nat)
    requires i <= |s|
    ensures MatchDoiAt(s, i).Some? <==> DoiAt(s, i)
    ensures MatchDoiAt(s, i).Some? ==> MatchDoiAt(s, i).value == DollarEnd(s)
  {
    if MatchDoiAt(s, i).Some? {
      MatchDoiAtSound(s, i);
    }
    if DoiAt(s, i) {
      MatchDoiAtComplete(s, i);
    }
  }

  /** A run of exactly `n` characters of the class, at most `max`. */
  lemma RunFull(s: string, i: nat, n: nat, cls: CharClass)
    requires i <= |s|
    ensures Run(s, i, n, cls) == n <==> i + n <= |s| && forall k :: i <= k < i + n ==> InClass(s[k], cls)
  {
    RunMeaning(s, i, n, cls);
    if i + n <= |s| && forall k :: i <= k < i + n ==> InClass(s[k], cls) {
      RunCovers(s, i, n, cls, n);
    }
  }

  /** The ORCID matcher accepts at `i` exactly when the 19 characters from `i`
      have the ORCID shape. */
  lemma MatchOrcidAtMeaning(s: string, i: nat)
    requires i <= |s|
    ensures MatchOrcidAt(s, i).Some? <==> OrcidAt(s, i)
    ensures MatchOrcidAt(s, i).Some? ==> MatchOrcidAt(s, i).value == i + 19
  {
    RunFull(s, i, 4, Digit);
    if i + 19 <= |s| {
      RunFull(s, i + 5, 4, Digit);
      RunFull(s, i + 10, 4, Digit);
      RunFull(s, i + 15, 4, Word);
    }
  }

  datatype Pattern = DoiPattern | OrcidPattern

  /** `pattern.match(s, i)`: the end of the match starting at `i`, if any. */
  function MatchAt(p: Pattern, s: string, i: nat): (r: Option<nat>)
    requires i <= |s|
    ensures r.Some? ==> i < r.value <= |s|
  {
    match p
    case DoiPattern => MatchDoiAt(s, i)
    case OrcidPattern => MatchOrcidAt(s, i)
  }

  /** The positions of a match in the searched text. */
  datatype Span = Span(start: nat, end: nat)

  /** `re.search` from position `from`: the leftmost start at which the pattern
      matches, with the end of that match. */
  function Search(p: Pattern, s: string, from: nat): (r: Option<Span>)
    requires from <= |s|
    ensures r.Some? ==> from <= r.value.start < r.value.end <= |s|
    ensures r.Some? ==> MatchAt(p, s, r.value.start) == Some(r.value.end)
    ensures r.Some? ==> forall j :: from <= j < r.value.start ==> MatchAt(p, s, j).None?
    ensures r.None? <==> forall j :: from <= j <= |s| ==> MatchAt(p, s, j).None?
    decreases |s| - from
  {
    match MatchAt(p, s, from)
    case Some(end) => Some(Span(from, end))
    case None => if from == |s| then None else Search(p, s, from + 1)
  }

  /** `re.search(pattern, s).group()`, or `None` when the search fails. */
  function SearchGroup(p: Pattern, s: string): (g: Option<string>)
    ensures g.Some? ==> 0 < |g.value| <= |s|
    ensures g.Some? ==> exists i :: 0 <= i <= |s| && OccursAt(s, g.value, i)
    ensures g.None? <==> forall j :: 0 <= j <= |s| ==> MatchAt(p, s, j).None?
  {
    match Search(p, s, 0)
    case Some(sp) =>
      assert OccursAt(s, s[sp.start..sp.end], sp.start);
      Some(s[sp.start..sp.end])
    case None => None
  }

  /** `i` is the leftmost start of a DOI-shaped text running to `$`. */
  predicate LeftmostDoiAt(s: string, i: nat) {
    DoiAt(s, i) && forall j: nat :: j < i ==> !DoiAt(s, j)
  }

  /** `i` is the leftmost start of an ORCID-shaped 19-character window. */
  predicate LeftmostOrcidAt(s: string, i: nat) {
    OrcidAt(s, i) && forall j: nat :: j < i ==> !OrcidAt(s, j)
  }

  /** A DOI search finds the leftmost DOI-shaped suffix (up to `$`), and fails
      exactly when there is none. */
  lemma DoiSearchMeaning(s: string)
    ensures SearchGroup(DoiPattern, s).Some? ==>
      exists i: nat :: LeftmostDoiAt(s, i) && SearchGroup(DoiPattern, s).value == s[i..DollarEnd(s)]
    ensures SearchGroup(DoiPattern, s).None? <==> forall j: nat :: !DoiAt(s, j)
  {
    match Search(DoiPattern, s, 0)
    case Some(sp) =>
      MatchDoiAtMeaning(s, sp.start);
      forall j: nat | j < sp.start
        ensures !DoiAt(s, j)
      {
        assert MatchAt(DoiPattern, s, j).None?;
        MatchDoiAtMeaning(s, j);
      }
      assert LeftmostDoiAt(s, sp.start);
    case None =>
      forall j: nat
        ensures !DoiAt(s, j)
      {
        if j <= |s| {
          assert MatchAt(DoiPattern, s, j).None?;
          MatchDoiAtMeaning(s, j);
        }
      }
  }

  /** An ORCID search finds the leftmost ORCID-shaped window, and fails exactly
      when there is none. */
  lemma OrcidSearchMeaning(s: string)
    ensures SearchGroup(OrcidPattern, s).Some? ==>
      exists i: nat :: LeftmostOrcidAt(s, i) && SearchGroup(OrcidPattern, s).value == s[i..i + 19]
    ensures SearchGroup(OrcidPattern, s).None? <==> forall j: nat :: !OrcidAt(s, j)
  {
    match Search(OrcidPattern, s, 0)
    case Some(sp) =>
      MatchOrcidAtMeaning(s, sp.start);
      forall j: nat | j < sp.start
        ensures !OrcidAt(s, j)
      {
        assert MatchAt(OrcidPattern, s, j).None?;
        MatchOrcidAtMeaning(s, j);
      }
      assert LeftmostOrcidAt(s, sp.start);
    case None =>
      forall j: nat
        ensures !OrcidAt(s, j)
      {
        if j <= |s| {
          assert MatchAt(OrcidPattern, s, j).None?;
          MatchOrcidAtMeaning(s, j);
        }
      }
  }

  /** Every DOI match holds a slash, so a text without one has no DOI. */
  lemma DoiNeedsSlash(s: string)
    requires forall k :: 0 <= k < |s| ==> s[k] != '/'
    ensures SearchGroup(DoiPattern, s).None?
  {
    DoiSearchMeaning(s);
  }

  /** Every ORCID match starts with a digit, so a text without digits has no ORCID. */
  lemma OrcidNeedsDigit(s: string)
    requires forall k :: 0 <= k < |s| ==> !IsDigit(s[k])
    ensures SearchGroup(OrcidPattern, s).None?
  {
    OrcidSearchMeaning(s);
  }
}
