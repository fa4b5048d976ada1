# pylinkedcmd utilities in Dafny

A model of the two helpers in `pylinkedcmd/utilities.py`, with proofs of what
they promise.

- `actionable_id(identifier_string, return_resolver=True)` works out what kind of
  identifier a string is. It tries four rules in a fixed order, and the first
  that applies decides:
  1. a valid URL whose lower-cased text contains `/staff-profiles/` gives
     `{url, usgs_web_url}`;
  2. a valid email address gives `{email}`;
  3. a match of the DOI pattern `10.\d{4,9}\/[\S]+$` gives `{doi}`;
  4. a match of the ORCID pattern `\d{4}-\d{4}-\d{4}-\w{4}` gives `{orcid}`.

  A DOI or ORCID result also gets `url` when `return_resolver` is set. That URL
  is the resolver base followed by the upper-cased match. When no rule applies
  the function returns `None`.
- `chunks(dict_list, chunk_size=1000)` yields the consecutive slices
  `dict_list[i:i+chunk_size]` for `i` in `range(0, len(dict_list), chunk_size)`.

Files:

- `wrappers.dfy`: `Option` and `Result`.
- `ascii.dfy`: character classes, `lower()`/`upper()` and substring search.
- `regex.dfy`: the two fixed patterns under `re.search`. Each pattern has a
  matcher written the way the regex engine runs it (greedy repetition, `$`). A
  declarative shape predicate states which texts the pattern accepts. Lemmas
  prove the two agree and that the search returns the leftmost match.
- `utilities.dfy`: `ActionableId` as a function, the rule table `Identifiers` in
  the source's order, and `Chunks` as a method with a loop. `Chunks` is proved
  against the specification function `ChunksOf`.

The answers of `validators.url` and `validators.email` come from a third-party
package. The model takes them as the parameters `validUrl` and `validEmail`.

`chunks` calls `range(0, n, chunk_size)`. That raises `ValueError` for a step
of 0. A negative step gives an empty range, so the generator yields no chunks
at all. `Utilities.Chunks` models exactly this.

## Model

| member | source | states |
|---|---|---|
| Utilities.IsStaffProfileUrl | pylinkedcmd/utilities.py:5-6 | the staff-profile test; when it holds the input is a valid URL, at least as long as `/staff-profiles/`, and contains a `/` |
| Utilities.RuleResult | pylinkedcmd/utilities.py:30-34 | the dictionary of a matched rule has the rule's key, holding the match (when that key is not `url` itself), and `url` exactly when `return_resolver` is set and the rule has a resolver, holding the resolver followed by the upper-cased match |
| Utilities.FirstMatch | pylinkedcmd/utilities.py:27-38 | the loop over the table gives `None` exactly when no entry's pattern is found, and otherwise a dictionary holding some entry's key |
| Utilities.ActionableId | pylinkedcmd/utilities.py:4-38 | every dictionary returned holds exactly one identity key (`usgs_web_url`, `email`, `doi` or `orcid`) and besides it at most `url` |
| Utilities.StaffProfileRule | pylinkedcmd/utilities.py:5-10 | a valid URL whose lower-cased form contains `/staff-profiles/` gives `url` and `usgs_web_url`, both equal to the unmodified input, whatever the other rules would say |
| Utilities.MarkerAnyCase | pylinkedcmd/utilities.py:6 | the marker is recognised in any letter case, because the test runs on the lower-cased input |
| Utilities.UrlWithoutMarkerFallsThrough | pylinkedcmd/utilities.py:5-6 | a valid URL without the marker gets the same result it would get if it were not a URL |
| Utilities.MarkerNeedsSlash | pylinkedcmd/utilities.py:6 | lower-casing creates no slash, so an input without `/` never meets the staff-profile rule |
| Utilities.EmailRule | pylinkedcmd/utilities.py:12-15 | when the URL rule does not apply, a valid email gives `{email: input}`, before any pattern is tried |
| Utilities.FirstRule | pylinkedcmd/utilities.py:27-36 | the loop stops at the first table entry whose pattern is found; every earlier entry was not found; it runs off the end only when none is found |
| Utilities.DoiPrecedence | pylinkedcmd/utilities.py:17-36 | once the first two rules fail, a found DOI decides the result, even when the input also contains an ORCID |
| Utilities.OrcidRule | pylinkedcmd/utilities.py:17-36 | once the first two rules fail, no DOI is found and an ORCID is, the result is the ORCID rule's dictionary |
| Utilities.OrcidOnlyWithoutDoi | pylinkedcmd/utilities.py:17-36 | conversely, a result keyed `orcid` means the first two rules failed, no DOI was found and an ORCID was |
| Utilities.NoMatchIsNone | pylinkedcmd/utilities.py:4-38 | the result is `None` if and only if none of the four rules applies |
| Utilities.PatternValueShape | pylinkedcmd/utilities.py:27-31 | a `doi` value is the input from the leftmost DOI start up to `$`; an `orcid` value is the leftmost ORCID-shaped 19-character window |
| Utilities.PatternValueMatches | pylinkedcmd/utilities.py:18-31 | every `doi` value is a whole text of DOI shape, every `orcid` value a whole text of ORCID shape |
| Utilities.ResolverUrl | pylinkedcmd/utilities.py:30-34 | a DOI or ORCID result has `url` exactly when `return_resolver` is set; `url` is then the kind's resolver base followed by the upper-cased match; there are no other keys |
| Utilities.DoiExample | pylinkedcmd/utilities.py:17-36 | `10.1234/abcDEF` gives `doi` with the input and `url` `https://doi.org/10.1234/ABCDEF` |
| Utilities.OrcidExample | pylinkedcmd/utilities.py:17-36 | `0000-0002-1825-0097` gives `orcid` with the input and `url` `https://orcid.org/0000-0002-1825-0097` |
| Utilities.NoMatchExample | pylinkedcmd/utilities.py:38 | `hello world`, if not an email, gives `None` |
| Ascii.Lower | pylinkedcmd/utilities.py:6 | `lower()` keeps the length, leaves no capital letter, and changes each character only in letter case |
| Ascii.Upper | pylinkedcmd/utilities.py:34 | `upper()` keeps the length, leaves no lower-case letter, and changes each character only in letter case |
| Ascii.CaseRoundTrip | pylinkedcmd/utilities.py:6-34 | lower-casing after upper-casing equals lower-casing alone, and upper-casing after lower-casing equals upper-casing alone |
| Regex.Run | pylinkedcmd/utilities.py:19-23 | a bounded repetition `{0,max}` takes at most `max` characters and stays within the text |
| Regex.DollarEnd | pylinkedcmd/utilities.py:19 | `$` matches at the returned position, and that position is the end of the text or a final newline |
| Regex.RunMeaning | pylinkedcmd/utilities.py:19-23 | a greedy repetition takes characters of its class and stops only at its maximum, the end of the text, or a character outside the class |
| Regex.MatchDoiTail | pylinkedcmd/utilities.py:19 | the tail `[\S]+$` tried at a position, as the engine runs it; a match ends after that position and within the text |
| Regex.MatchDoiAt | pylinkedcmd/utilities.py:19 | the DOI pattern tried at a position, as the engine runs it; a match ends after that position and within the text (what it accepts is stated by `MatchDoiAtMeaning`) |
| Regex.MatchDoiAtMeaning | pylinkedcmd/utilities.py:19 | the DOI matcher succeeds at a position if and only if the text from there up to `$` has the DOI shape; the match then ends at `$` |
| Regex.DoiAtMeaning | pylinkedcmd/utilities.py:19 | a DOI at a position is the DOI shape of the text cut out from there up to `$` |
| Regex.MatchOrcidAt | pylinkedcmd/utilities.py:23 | the ORCID pattern tried at a position; a match ends after that position and within the text (what it accepts is stated by `MatchOrcidAtMeaning`) |
| Regex.MatchOrcidAtMeaning | pylinkedcmd/utilities.py:23 | the ORCID matcher succeeds at a position if and only if the 19 characters from there have the ORCID shape; the match is those 19 characters |
| Regex.OrcidAtMeaning | pylinkedcmd/utilities.py:23 | an ORCID at a position is the ORCID shape of the 19 characters cut out from there |
| Regex.Search | pylinkedcmd/utilities.py:28 | the search returns the leftmost position where the pattern matches, with the end of that match; it fails if and only if no position matches |
| Regex.SearchGroup | pylinkedcmd/utilities.py:28-31 | `re.search(...).group()`: a found group is a non-empty substring of the input, and nothing is found exactly when the pattern matches at no position |
| Regex.DoiSearchMeaning | pylinkedcmd/utilities.py:19-28 | the DOI search finds the leftmost DOI-shaped text up to `$`, and finds nothing if and only if no position has one |
| Regex.OrcidSearchMeaning | pylinkedcmd/utilities.py:23-28 | the ORCID search finds the leftmost ORCID-shaped window, and finds nothing if and only if no position has one |
| Regex.DoiNeedsSlash | pylinkedcmd/utilities.py:19 | a text without `/` contains no DOI |
| Regex.OrcidNeedsDigit | pylinkedcmd/utilities.py:23 | a text without digits contains no ORCID |
| Utilities.ChunksOf | pylinkedcmd/utilities.py:41-42 | the slices the generator yields for a positive size; there are none exactly when the list is empty |
| Utilities.Chunks | pylinkedcmd/utilities.py:40-42 | a size of 0 fails with `ValueError`, and no other size fails; a negative size gives no chunks; a positive size gives exactly `ChunksOf(items, size)` |
| Utilities.ChunksStep | pylinkedcmd/utilities.py:41-42 | from offset `i`, the chunks are `items[i:i+size]` followed by the chunks from `i + size` |
| Utilities.ChunksFlatten | pylinkedcmd/utilities.py:40-42 | joining the chunks gives back the list, in its original order |
| Utilities.ChunkAt | pylinkedcmd/utilities.py:41-42 | chunk `k` is `items[k*size : min((k+1)*size, len)]` |
| Utilities.ChunkLengths | pylinkedcmd/utilities.py:41-42 | every chunk but the last has exactly `size` elements, and the last has between 1 and `size` |
| Utilities.ChunkCount | pylinkedcmd/utilities.py:41 | the number of chunks is ceil(len / size); an empty list gives no chunks |
| Utilities.ShortListOneChunk | pylinkedcmd/utilities.py:40-42 | a non-empty list no longer than the size comes back as a single chunk |
| Utilities.ChunksExample | pylinkedcmd/utilities.py:40-42 | `[1, 2, 3, 4, 5]` in chunks of 2 gives `[1, 2]`, `[3, 4]`, `[5]` |

## Left out

- `validators.url` and `validators.email` are not part of this model. They are parameters. Their answers are taken as given, and any input a validator rejects is handled by the later rules, as in the code.
- Unicode: `\d`, `\w`, `\s`, `lower()` and `upper()` are modelled on ASCII only. Outside ASCII, a character is treated as no digit, no word character and no whitespace, and case mapping leaves it unchanged. Python's `str` patterns also accept Unicode digits and letters. Python's `upper()` can also change the length of a string (`ß` becomes `SS`).
- Dictionary order: a result is a `map`, so the insertion order of its keys is not modelled. The order of the rule table is kept, as the sequence `Identifiers`.
- Default arguments: `return_resolver=True` and `chunk_size=1000` are not modelled; callers of `ActionableId` and `Chunks` pass both explicitly.
- Utilities.Chunks: returns the whole list of chunks. It does not model the generator's laziness or its state between yields.
- Utilities.Chunks: a `chunk_size` that is not an integer (a `TypeError` in `range()`) is not modelled; the size is an `int`.
- Utilities.Chunks: a negative `chunk_size` yields no chunks rather than an error, as `range()` does.
