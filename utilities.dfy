/**
 * The two helpers of pylinkedcmd/utilities.py.
 *
 * `ActionableId` classifies an identifier string: a USGS staff-profile URL, an
 * email address, a DOI or an ORCID, tried in that order, the first that applies
 * deciding the result. The `validators.url` and `validators.email` predicates of
 * the third-party `validators` package are parameters.
 *
 * `Chunks` splits a list into consecutive slices of a fixed size, as the
 * generator does; `ChunksOf` is the sequence of slices it yields.
 */
module Utilities {
  import opened Wrappers
  import opened Ascii
  import opened Regex

  const UrlKey: string := "url"
  const UsgsWebUrlKey: string := "usgs_web_url"
  const EmailKey: string := "email"
  const DoiKey: string := "doi"
  const OrcidKey: string := "orcid"

  const StaffProfilesMarker: string := "/staff-profiles/"

  const DoiResolver: string := "https://doi.org/"
  const OrcidResolver: string := "https://orcid.org/"

  /** One entry of the identifier table: the result key, the pattern searched
      for, and the resolver base prefixed to the upper-cased match. */
  datatype IdentifierRule = IdentifierRule(key: string, pattern: Pattern, resolver: Option<string>)

  /** The identifier table, in its insertion order: DOI before ORCID. */
  const Identifiers: seq<IdentifierRule> := [
    IdentifierRule(DoiKey, DoiPattern, Some(DoiResolver)),
    IdentifierRule(OrcidKey, OrcidPattern, Some(OrcidResolver))
  ]

  /** The dictionary built for a rule whose pattern matched `group`: the match
      under the rule's key, and `url` only when asked for and the rule has a
      resolver, then the resolver followed by the upper-cased match. */
  function RuleResult(rule: IdentifierRule, group: string, returnResolver: bool): (r: map<string, string>)
    ensures r.Keys == if returnResolver && rule.resolver.Some? then {rule.key, UrlKey} else {rule.key}
    ensures rule.key != UrlKey ==> r[rule.key] == group
    ensures returnResolver && rule.resolver.Some? ==> r[UrlKey] == rule.resolver.value + Upper(group)
  {
    var d := map[rule.key := group];
    if returnResolver && rule.resolver.Some? then d[UrlKey := rule.resolver.value + Upper(group)] else d
  }

  /** The loop over the identifier table, from rule `from` on: the index of the
      first rule whose pattern is found in `s`, or `|rules|` when none is. */
  function FirstRule(rules: seq<IdentifierRule>, s: string, from: nat): (j: nat)
    requires from <= |rules|
    ensures from <= j <= |rules|
    ensures j < |rules| ==> SearchGroup(rules[j].pattern, s).Some?
    ensures forall i :: from <= i < j ==> SearchGroup(rules[i].pattern, s).None?
    decreases |rules| - from
  {
    if from == |rules| || SearchGroup(rules[from].pattern, s).Some? then from
    else FirstRule(rules, s, from + 1)
  }

  /** What the loop returns: the dictionary of the first rule whose pattern is
      found, or `None` when the loop runs out. */
  function FirstMatch(rules: seq<IdentifierRule>, s: string, returnResolver: bool)
    : (r: Option<map<string, string>>)
    ensures r.None? <==> forall i :: 0 <= i < |rules| ==> SearchGroup(rules[i].pattern, s).None?
    ensures r.Some? ==> exists i :: 0 <= i < |rules| && rules[i].key in r.value
  {
    var j := FirstRule(rules, s, 0);
    if j == |rules| then None
    else Some(RuleResult(rules[j], SearchGroup(rules[j].pattern, s).value, returnResolver))
  }

  /** A result holds exactly one identity key (`usgs_web_url`, `email`, `doi` or
      `orcid`), and besides it at most the `url` key. */
  predicate WellShaped(d: map<string, string>) {
    var identity := d.Keys - {UrlKey};
    || identity == {UsgsWebUrlKey}
    || identity == {EmailKey}
    || identity == {DoiKey}
    || identity == {OrcidKey}
  }

  /** `actionable_id(identifier, return_resolver)`, given the answers of
      `validators.url` and `validators.email`. */
  function ActionableId(identifier: string, returnResolver: bool,
                        validUrl: string -> bool, validEmail: string -> bool)
    : (r: Option<map<string, string>>)
    ensures r.Some? ==> WellShaped(r.value)
  {
    if IsStaffProfileUrl(identifier, validUrl) then
      Some(map[UrlKey := identifier, UsgsWebUrlKey := identifier])
    else if validEmail(identifier) then
      Some(map[EmailKey := identifier])
    else
      FirstMatch(Identifiers, identifier, returnResolver)
  }

  /** The staff-profile rule decides: a valid URL whose lower-cased form
      contains `/staff-profiles/`. */
  predicate IsStaffProfileUrl(identifier: string, validUrl: string -> bool): (b: bool)
    ensures b ==> validUrl(identifier) && |identifier| >= |StaffProfilesMarker| && '/' in identifier
  {
    var b := validUrl(identifier) && Contains(Lower(identifier), StaffProfilesMarker);
    assert b ==> '/' in identifier by {
      if b {
        var i :| 0 <= i <= |identifier| && OccursAt(Lower(identifier), StaffProfilesMarker, i);
        assert Lower(identifier)[i] == '/';
        assert identifier[i] == '/';
      }
    }
    b
  }

  /** The marker is found in any letter case. */
  lemma MarkerAnyCase(identifier: string, i: nat)
    requires i + |StaffProfilesMarker| <= |identifier|
    requires Lower(identifier[i..i + |StaffProfilesMarker|]) == StaffProfilesMarker
    ensures Contains(Lower(identifier), StaffProfilesMarker)
  {
    LowerSlice(identifier, i, i + |StaffProfilesMarker|);
    assert OccursAt(Lower(identifier), StaffProfilesMarker, i);
  }

  /** A staff-profile URL gives `url` and `usgs_web_url`, both the unmodified input. */
  lemma StaffProfileRule(identifier: string, returnResolver: bool,
                         validUrl: string -> bool, validEmail: string -> bool)
    requires IsStaffProfileUrl(identifier, validUrl)
    ensures ActionableId(identifier, returnResolver, validUrl, validEmail)
      == Some(map[UrlKey := identifier, UsgsWebUrlKey := identifier])
  {
  }

  /** A valid URL without the marker is not decided by the URL rule: the result
      is the one the input would get if it were not a URL at all. */
  lemma UrlWithoutMarkerFallsThrough(identifier: string, returnResolver: bool,
                                     validUrl: string -> bool, validEmail: string -> bool)
    requires !Contains(Lower(identifier), StaffProfilesMarker)
    ensures ActionableId(identifier, returnResolver, validUrl, validEmail)
      == ActionableId(identifier, returnResolver, _ => false, validEmail)
  {
  }

  /** Otherwise a valid email address gives `email`, the unmodified input. */
  lemma EmailRule(identifier: string, returnResolver: bool,
                  validUrl: string -> bool, validEmail: string -> bool)
    requires !IsStaffProfileUrl(identifier, validUrl) && validEmail(identifier)
    ensures ActionableId(identifier, returnResolver, validUrl, validEmail)
      == Some(map[EmailKey := identifier])
  {
  }

  /** Otherwise the DOI pattern takes precedence: when it is found, the result is
      keyed `doi`, whether or not an ORCID-shaped text also occurs. */
  lemma DoiPrecedence(identifier: string, returnResolver: bool,
                      validUrl: string -> bool, validEmail: string -> bool)
    requires !IsStaffProfileUrl(identifier, validUrl) && !validEmail(identifier)
    requires SearchGroup(DoiPattern, identifier).Some?
    ensures ActionableId(identifier, returnResolver, validUrl, validEmail)
      == Some(RuleResult(Identifiers[0], SearchGroup(DoiPattern, identifier).value, returnResolver))
  {
    assert FirstRule(Identifiers, identifier, 0) == 0;
  }

  /** Only when no DOI is found does an ORCID give the result, keyed `orcid`. */
  lemma OrcidRule(identifier: string, returnResolver: bool,
                  validUrl: string -> bool, validEmail: string -> bool)
    requires !IsStaffProfileUrl(identifier, validUrl) && !validEmail(identifier)
    requires SearchGroup(DoiPattern, identifier).None? && SearchGroup(OrcidPattern, identifier).Some?
    ensures ActionableId(identifier, returnResolver, validUrl, validEmail)
      == Some(RuleResult(Identifiers[1], SearchGroup(OrcidPattern, identifier).value, returnResolver))
  {
    assert FirstRule(Identifiers, identifier, 0) == 1;
  }

  /** The result is `None`, and nothing is raised, exactly when no rule applies. */
  lemma NoMatchIsNone(identifier: string, returnResolver: bool,
                      validUrl: string -> bool, validEmail: string -> bool)
    ensures ActionableId(identifier, returnResolver, validUrl, validEmail).None? <==>
      && !IsStaffProfileUrl(identifier, validUrl)
      && !validEmail(identifier)
      && SearchGroup(DoiPattern, identifier).None?
      && SearchGroup(OrcidPattern, identifier).None?
  {
    assert Identifiers[0].pattern == DoiPattern && Identifiers[1].pattern == OrcidPattern;
  }

  /** Only when no DOI is found does the ORCID rule decide: a result keyed
      `orcid` means the first two rules failed, no DOI was found and an ORCID was. */
  lemma OrcidOnlyWithoutDoi(identifier: string, returnResolver: bool,
                            validUrl: string -> bool, validEmail: string -> bool)
    ensures var r := ActionableId(identifier, returnResolver, validUrl, validEmail);
      r.Some? && OrcidKey in r.value ==>
        && !IsStaffProfileUrl(identifier, validUrl)
        && !validEmail(identifier)
        && SearchGroup(DoiPattern, identifier).None?
        && SearchGroup(OrcidPattern, identifier).Some?
  {
    var r := ActionableId(identifier, returnResolver, validUrl, validEmail);
    if r.Some? && OrcidKey in r.value {
      assert !IsStaffProfileUrl(identifier, validUrl) && !validEmail(identifier);
      if SearchGroup(DoiPattern, identifier).Some? {
        DoiPrecedence(identifier, returnResolver, validUrl, validEmail);
        assert false;
      }
      assert FirstRule(Identifiers, identifier, 0) == 1;
    }
  }

  /** A `doi` value is the leftmost DOI-shaped suffix of the input, up to `$`; an
      `orcid` value is its leftmost ORCID-shaped 19-character window. */
  lemma PatternValueShape(identifier: string, returnResolver: bool,
                          validUrl: string -> bool, validEmail: string -> bool)
    ensures var r := ActionableId(identifier, returnResolver, validUrl, validEmail);
      r.Some? && DoiKey in r.value ==>
        exists i: nat :: LeftmostDoiAt(identifier, i) && r.value[DoiKey] == identifier[i..DollarEnd(identifier)]
    ensures var r := ActionableId(identifier, returnResolver, validUrl, validEmail);
      r.Some? && OrcidKey in r.value ==>
        exists i: nat :: LeftmostOrcidAt(identifier, i) && r.value[OrcidKey] == identifier[i..i + 19]
  {
    var r := ActionableId(identifier, returnResolver, validUrl, validEmail);
    if r.Some? && (DoiKey in r.value || OrcidKey in r.value) {
      assert !IsStaffProfileUrl(identifier, validUrl) && !validEmail(identifier);
      DoiSearchMeaning(identifier);
      OrcidSearchMeaning(identifier);
      if SearchGroup(DoiPattern, identifier).Some? {
        DoiPrecedence(identifier, returnResolver, validUrl, validEmail);
      } else {
        OrcidRule(identifier, returnResolver, validUrl, validEmail);
      }
    }
  }

  /** Each value is a whole text its pattern accepts: a `doi` value has the DOI
      shape, an `orcid` value the ORCID shape. */
  lemma PatternValueMatches(identifier: string, returnResolver: bool,
                            validUrl: string -> bool, validEmail: string -> bool)
    ensures var r := ActionableId(identifier, returnResolver, validUrl, validEmail);
      r.Some? && DoiKey in r.value ==> DoiShape(r.value[DoiKey])
    ensures var r := ActionableId(identifier, returnResolver, validUrl, validEmail);
      r.Some? && OrcidKey in r.value ==> OrcidShape(r.value[OrcidKey])
  {
    var r := ActionableId(identifier, returnResolver, validUrl, validEmail);
    PatternValueShape(identifier, returnResolver, validUrl, validEmail);
    if r.Some? && DoiKey in r.value {
      var i: nat :| LeftmostDoiAt(identifier, i) && r.value[DoiKey] == identifier[i..DollarEnd(identifier)];
      DoiAtMeaning(identifier, i);
    }
    if r.Some? && OrcidKey in r.value {
      var i: nat :| LeftmostOrcidAt(identifier, i) && r.value[OrcidKey] == identifier[i..i + 19];
      OrcidAtMeaning(identifier, i);
    }
  }

  /** A DOI or ORCID result carries `url` exactly when `return_resolver` is set,
      and then it is the kind's resolver followed by the upper-cased match. */
  lemma ResolverUrl(identifier: string, returnResolver: bool,
                    validUrl: string -> bool, validEmail: string -> bool)
    ensures var r := ActionableId(identifier, returnResolver, validUrl, validEmail);
      r.Some? && DoiKey in r.value ==>
        if returnResolver then r.value.Keys == {DoiKey, UrlKey} && r.value[UrlKey] == DoiResolver + Upper(r.value[DoiKey])
        else r.value.Keys == {DoiKey}
    ensures var r := ActionableId(identifier, returnResolver, validUrl, validEmail);
      r.Some? && OrcidKey in r.value ==>
        if returnResolver then r.value.Keys == {OrcidKey, UrlKey} && r.value[UrlKey] == OrcidResolver + Upper(r.value[OrcidKey])
        else r.value.Keys == {OrcidKey}
  {
    var r := ActionableId(identifier, returnResolver, validUrl, validEmail);
    if r.Some? && (DoiKey in r.value || OrcidKey in r.value) {
      assert !IsStaffProfileUrl(identifier, validUrl) && !validEmail(identifier);
      if SearchGroup(DoiPattern, identifier).Some? {
        DoiPrecedence(identifier, returnResolver, validUrl, validEmail);
      } else {
        OrcidRule(identifier, returnResolver, validUrl, validEmail);
      }
    }
  }

  /** Lower-casing creates no slash, so an input without one lacks the marker. */
  lemma MarkerNeedsSlash(identifier: string)
    requires forall k :: 0 <= k < |identifier| ==> identifier[k] != '/'
    ensures !Contains(Lower(identifier), StaffProfilesMarker)
  {
    forall i | 0 <= i <= |identifier|
      ensures !OccursAt(Lower(identifier), StaffProfilesMarker, i)
    {
      if i < |identifier| {
        assert Lower(identifier)[i] != StaffProfilesMarker[0];
      }
    }
  }

  /** The DOI search takes the whole of `10.1234/abcDEF`. */
  lemma DoiSampleFound(s: string)
    requires s == "10.1234/abcDEF"
    ensures SearchGroup(DoiPattern, s) == Some(s)
  {
    assert DollarEnd(s) == |s|;
    assert DoiShapeIn(s, 0, |s|, 4);
    MatchDoiAtMeaning(s, 0);
    assert MatchAt(DoiPattern, s, 0) == Some(|s|);
    assert s[0..|s|] == s;
  }

  /** The DOI resolver URL of `10.1234/abcDEF` upper-cases its letters. */
  lemma DoiSampleUrl(s: string)
    requires s == "10.1234/abcDEF"
    ensures DoiResolver + Upper(s) == "https://doi.org/10.1234/ABCDEF"
  {
    assert Upper(s) == "10.1234/ABCDEF";
  }

  /** `0000-0002-1825-0097` holds no slash, so it is neither a staff-profile URL
      nor a DOI. */
  lemma OrcidSampleNoSlash(s: string)
    requires s == "0000-0002-1825-0097"
    ensures !Contains(Lower(s), StaffProfilesMarker)
    ensures SearchGroup(DoiPattern, s).None?
  {
    MarkerNeedsSlash(s);
    DoiNeedsSlash(s);
  }

  /** The ORCID search takes the whole of `0000-0002-1825-0097`. */
  lemma OrcidSampleFound(s: string)
    requires s == "0000-0002-1825-0097"
    ensures SearchGroup(OrcidPattern, s) == Some(s)
  {
    assert s[0..19] == s;
    assert OrcidAt(s, 0);
    MatchOrcidAtMeaning(s, 0);
    assert MatchAt(OrcidPattern, s, 0) == Some(19);
  }

  /** `0000-0002-1825-0097` has no letter for upper-casing to change. */
  lemma OrcidSampleUrl(s: string)
    requires s == "0000-0002-1825-0097"
    ensures OrcidResolver + Upper(s) == "https://orcid.org/0000-0002-1825-0097"
  {
    UpperFixesNonLower(s);
  }

  /** `10.1234/abcDEF` is a DOI; its resolver URL upper-cases the whole match. */
  lemma DoiExample(s: string, validUrl: string -> bool, validEmail: string -> bool)
    requires s == "10.1234/abcDEF" && !validEmail(s)
    ensures ActionableId(s, true, validUrl, validEmail)
      == Some(map[DoiKey := s, UrlKey := "https://doi.org/10.1234/ABCDEF"])
  {
    DoiSampleFound(s);
    DoiSampleUrl(s);
    assert !IsStaffProfileUrl(s, validUrl) by {
      assert |s| < |StaffProfilesMarker|;
    }
    DoiPrecedence(s, true, validUrl, validEmail);
  }

  /** `0000-0002-1825-0097` is an ORCID; upper-casing leaves it unchanged. */
  lemma OrcidExample(s: string, validUrl: string -> bool, validEmail: string -> bool)
    requires s == "0000-0002-1825-0097" && !validEmail(s)
    ensures ActionableId(s, true, validUrl, validEmail)
      == Some(map[OrcidKey := s, UrlKey := "https://orcid.org/0000-0002-1825-0097"])
  {
    OrcidSampleNoSlash(s);
    OrcidSampleFound(s);
    OrcidSampleUrl(s);
    OrcidRule(s, true, validUrl, validEmail);
  }

  /** `hello world` is none of the four kinds. */
  lemma NoMatchExample(s: string, validUrl: string -> bool, validEmail: string -> bool)
    requires s == "hello world" && !validEmail(s)
    ensures ActionableId(s, true, validUrl, validEmail) == None
  {
    MarkerNeedsSlash(s);
    DoiNeedsSlash(s);
    OrcidNeedsDigit(s);
    NoMatchIsNone(s, true, validUrl, validEmail);
  }

  /** The error `range()` raises for a step of zero. */
  datatype ChunkError = ValueError

  function Min(a: int, b: int): (m: int)
    ensures m <= a && m <= b && (m == a || m == b)
  {
    if a <= b then a else b
  }

  /** The slices `items[i:i+size]` for `i` in `range(0, len(items), size)`, the
      last one cut short by the end of the list. */
  function ChunksOf<T>(items: seq<T>, size: nat): (r: seq<seq<T>>)
    requires size > 0
    ensures |r| == 0 <==> |items| == 0
    decreases |items|
  {
    if |items| == 0 then []
    else
      var stop := Min(size, |items|);
      [items[..stop]] + ChunksOf(items[stop..], size)
  }

  /** The concatenation of a sequence of lists. */
  function Flatten<T>(chunks: seq<seq<T>>): (r: seq<T>) {
    if |chunks| == 0 then [] else chunks[0] + Flatten(chunks[1..])
  }

  /** One step of the generator: from offset `i`, the chunks are the slice
      `items[i:i+size]` followed by the chunks from the offset after it. */
  lemma ChunksStep<T>(items: seq<T>, size: nat, i: nat)
    requires size > 0 && i < |items|
    ensures ChunksOf(items[i..], size)
      == [items[i..Min(i + size, |items|)]] + ChunksOf(items[Min(i + size, |items|)..], size)
  {
    var stop := Min(i + size, |items|);
    assert items[i..][..Min(size, |items| - i)] == items[i..stop];
    assert items[i..][Min(size, |items| - i)..] == items[stop..];
  }

  /** `list(chunks(items, chunkSize))`. A step of zero makes `range()` raise; a
      negative step gives an empty range, so no chunk at all. */
  method Chunks<T>(items: seq<T>, chunkSize: int) returns (r: Result<seq<seq<T>>, ChunkError>)
    ensures chunkSize == 0 <==> r.Failure?
    ensures chunkSize < 0 ==> r == Success([])
    ensures chunkSize > 0 ==> r == Success(ChunksOf(items, chunkSize))
  {
    if chunkSize == 0 {
      return Failure(ValueError);
    }
    var chunks: seq<seq<T>> := [];
    if chunkSize > 0 {
      var i := 0;
      while i < |items|
        invariant 0 <= i
        invariant chunks + ChunksOf(items[Min(i, |items|)..], chunkSize) == ChunksOf(items, chunkSize)
        decreases |items| - i
      {
        var stop := Min(i + chunkSize, |items|);
        ChunksStep(items, chunkSize, i);
        chunks := chunks + [items[i..stop]];
        i := i + chunkSize;
      }
      assert Min(i, |items|) == |items| && items[|items|..] == [];
      assert chunks + ChunksOf(items[|items|..], chunkSize) == chunks;
    }
    return Success(chunks);
  }

  /** Joining the chunks gives back the list, in its original order. */
  lemma {:induction false} ChunksFlatten<T>(items: seq<T>, size: nat)
    requires size > 0
    ensures Flatten(ChunksOf(items, size)) == items
    decreases |items|
  {
    if |items| > 0 {
      var stop := Min(size, |items|);
      var rest := ChunksOf(items[stop..], size);
      ChunksFlatten(items[stop..], size);
      assert ([items[..stop]] + rest)[1..] == rest;
      assert items[..stop] + items[stop..] == items;
    }
  }

  /** A slice of a suffix is a slice of the whole list, shifted. */
  lemma SuffixSlice<T>(items: seq<T>, d: nat, lo: nat, hi: nat)
    requires lo <= hi && d + hi <= |items|
    ensures items[d..][lo..hi] == items[d + lo..d + hi]
  {
  }

  /** Chunk `k` starts one chunk past the start of chunk `k - 1`. */
  lemma MulPred(k: nat, size: nat)
    requires k > 0
    ensures (k - 1) * size + size == k * size
  {
  }

  /** Chunk `k` is `items[k * size .. min((k + 1) * size, |items|)]`. */
  lemma {:induction false} ChunkAt<T>(items: seq<T>, size: nat, k: nat)
    requires size > 0 && k < |ChunksOf(items, size)|
    ensures k * size < |items|
    ensures ChunksOf(items, size)[k] == items[k * size .. Min(k * size + size, |items|)]
    decreases k
  {
    if k > 0 {
      var rest := items[size..];
      assert ChunksOf(items, size)[k] == ChunksOf(rest, size)[k - 1];
      ChunkAt(rest, size, k - 1);
      var lo := (k - 1) * size;
      MulPred(k, size);
      SuffixSlice(items, size, lo, Min(lo + size, |rest|));
    }
  }

  /** Every chunk but the last holds exactly `size` elements, the last between 1
      and `size`. */
  lemma {:induction false} ChunkLengths<T>(items: seq<T>, size: nat)
    requires size > 0
    ensures var chunks := ChunksOf(items, size);
      && (forall k :: 0 <= k < |chunks| - 1 ==> |chunks[k]| == size)
      && (|chunks| > 0 ==> 1 <= |chunks[|chunks| - 1]| <= size)
    decreases |items|
  {
    if |items| > 0 {
      var stop := Min(size, |items|);
      ChunkLengths(items[stop..], size);
    }
  }

  /** There are ceil(|items| / size) chunks: the least count whose `size`-slices
      cover the list. In particular an empty list gives no chunk. */
  lemma {:induction false} ChunkCount<T>(items: seq<T>, size: nat)
    requires size > 0
    ensures var n := |ChunksOf(items, size)|;
      (n - 1) * size < |items| <= n * size
    decreases |items|
  {
    if 0 < |items| <= size {
      assert items[|items|..] == [];
    } else if |items| > size {
      ChunkCount(items[size..], size);
      var m := |ChunksOf(items[size..], size)|;
      assert (m + 1) * size == m * size + size;
      assert (m - 1) * size + size == m * size;
    }
  }

  /** `chunks([1, 2, 3, 4, 5], 2)` yields `[1, 2]`, `[3, 4]`, `[5]`. */
  lemma ChunksExample(items: seq<int>)
    requires items == [1, 2, 3, 4, 5]
    ensures ChunksOf(items, 2) == [[1, 2], [3, 4], [5]]
  {
    assert items[..2] == [1, 2] && items[2..] == [3, 4, 5];
    assert items[2..][..2] == [3, 4] && items[2..][2..] == [5];
    assert ChunksOf([5], 2) == [[5]] by {
      assert [5][..1] == [5] && [5][1..] == [];
    }
  }

  /** A list shorter than the chunk size comes back as one chunk. */
  lemma ShortListOneChunk<T>(items: seq<T>, size: nat)
    requires 0 < |items| <= size
    ensures ChunksOf(items, size) == [items]
  {
    assert items[..|items|] == items && items[|items|..] == [];
  }
}
