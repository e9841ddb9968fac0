# Domain clean-up, author affiliation and airport-code extraction

This project models the decision logic of three scripts that prepare the
affiliation data of conference authors:

- **cleanup_domains.py** collapses each e-mail or institution domain onto
  the shortest *parent* domain present in the same batch (`cs.stanford.edu`
  becomes `stanford.edu`), where a parent must match on whole
  dot-separated labels, have at least two labels, and not start with
  `edu`, `org` or `ac`. `domains_cleanup_map` sorts the distinct domains by
  their reversed text, descending, and fills a dictionary in nested index
  loops, later writes overwriting earlier ones; `_main` rewrites the
  `domain` column through that dictionary.
- **scrape_domains.py** resolves an author id to a domain. An e-mail id
  gives the text after its last `@`; a profile id (`~Name1`) gives the
  institution domain of the history entry with the greatest
  `(end, start, domain)` tuple, a missing end counting as +infinity and a
  missing start as -infinity; `_main` resolves every distinct author once
  and maps the column through the result.
- **extract_iata.py** keeps the three-capital-letter tokens of a free-text
  answer, removes the tokens of the upper-cased domain and a fixed deny
  list, and writes one survivor (or nothing) per row.

Files: `pystr.dfy` (module `PyStr`: the Python string operations used —
`endswith`, `split`, `join`, `[-n:]`, `[::-1]`, `<`, `upper`),
`wrappers.dfy` (`Option`), `cleanup_domains.dfy` (module `CleanupDomains`),
`scrape_domains.dfy` (module `ScrapeDomains`), `extract_iata.dfy`
(module `ExtractIata`).

`domains_cleanup_map` is modelled as a method with the two nested loops over
the sorted list. Its postcondition `IsCleanupMap` says what the dictionary
means on the *set* of input domains: its keys are exactly the domains that
have a parent in the set, each mapped to its shortest parent (that is what
"last write wins" yields in the reversed-text order). The sort is a pure
insertion function proved to give the descending order of the reversed
strings, and that order is proved unique. The selection of
`get_author_domain` is a pure function over the profiles, which are given as
data. The row loop of extract_iata.py is a method over an array of rows, with
the tokenizer as a function parameter and the set-to-list conversion as a
loop that takes the members in an unspecified order.

## Model

| member | source | states |
|---|---|---|
| CleanupDomains.DomainsCleanupMap | cleanup_domains.py:13-29 | the dictionary maps exactly the domains that have a parent in the batch, each to its shortest parent, and nothing else |
| CleanupDomains.SortByReversedDesc | cleanup_domains.py:19 | the result holds the same domains as the input, in strictly descending order of the reversed strings (so duplicates are gone) |
| CleanupDomains.SortedUnique | cleanup_domains.py:19 | two lists sorted that way with the same members are equal: the sort result depends only on the set |
| CleanupDomains.ProperSuffixAfter | cleanup_domains.py:19-21 | a proper suffix sorts after the longer domain, so every candidate parent sits at a later index `j` |
| CleanupDomains.LastNIsSuffix | cleanup_domains.py:25 | `labels[-len(tail):] == tail` holds exactly when the label list ends with `tail` |
| CleanupDomains.ParentShape | cleanup_domains.py:22-26 | a pair accepted by the test is a suffix on a label boundary (labels, a dot, then the parent), the label lists end alike, the parent has two or more labels and no reserved first label |
| CleanupDomains.IsParentTransitive | cleanup_domains.py:22-26 | a parent of a parent passes the test too |
| CleanupDomains.CleanupMapPairs | cleanup_domains.py:19-26 | every pair `k -> v` has both sides in the batch, `k != v`, `v` a label-boundary proper suffix of `k`, with two or more labels and a first label outside `edu`, `org`, `ac` |
| CleanupDomains.ShortestParentIsRoot | cleanup_domains.py:19-28 | the shortest parent of a domain has no parent in the batch |
| CleanupDomains.CleanupMapIdempotent | cleanup_domains.py:19-28 | no value of the dictionary is also a key |
| CleanupDomains.CleanupMapUnique | cleanup_domains.py:19 | only one dictionary meets the description for a given set, so input order and duplicates do not change the result |
| CleanupDomains.RewriteIdempotent | cleanup_domains.py:39-41 | rewriting a domain twice through the dictionary gives the same as rewriting it once |
| CleanupDomains.CleanupColumn | cleanup_domains.py:38-41 | every cell becomes its shortest parent in the column, or stays unchanged when it has none; no cell of the result has a parent left in the column; the length is kept |
| CleanupDomains.SecondPassEmpty | cleanup_domains.py:39-41 | running the clean-up again on a cleaned column produces an empty dictionary |
| CleanupDomains.StanfordLabels | cleanup_domains.py:22-26 | `stanford.edu` passes the test as a parent of `cs.stanford.edu` |
| CleanupDomains.TwoDomains | cleanup_domains.py:13-29 | a batch holding a domain and its parent maps the domain to the parent and nothing else |
| CleanupDomains.LongerIsNotParent | cleanup_domains.py:22 | a longer domain never passes the test |
| CleanupDomains.NoMatchInsideLabel | cleanup_domains.py:23-25 | `xyzstanford.edu` is not collapsed onto `stanford.edu` |
| CleanupDomains.ReservedLabelBlocks | cleanup_domains.py:26 | `ox.ac.uk` is not collapsed onto `ac.uk` |
| PyStr.Split | cleanup_domains.py:23 | `split(".")` never returns an empty list and no piece holds the separator |
| PyStr.JoinSplit | cleanup_domains.py:23 | joining the pieces of a split with the separator gives back the text |
| PyStr.Reversed | cleanup_domains.py:19 | `s[::-1]` has the same length and holds the characters in reverse order |
| PyStr.LessTotal | cleanup_domains.py:19 | Python's string order is total on distinct strings |
| PyStr.LessTransitive | cleanup_domains.py:19 | Python's string order is transitive |
| PyStr.PrefixLess | cleanup_domains.py:19 | a proper prefix sorts first |
| PyStr.AfterLast | scrape_domains.py:22 | `s.split("@")[-1]` is a suffix of `s` free of `@`, preceded by `@` unless it is all of `s` |
| ScrapeDomains.AuthorDomain | scrape_domains.py:17-36 | an id not starting with `~` gives its text after the last `@` (or all of it); a `~` id gives "" or the domain of some history entry of the returned profiles |
| ScrapeDomains.EmailNeedsNoLookup | scrape_domains.py:21-24 | an e-mail id resolves the same whatever the profiles |
| ScrapeDomains.EndOf | scrape_domains.py:29 | the end is +infinity exactly when the field is missing, null, empty or 0 |
| ScrapeDomains.StartOf | scrape_domains.py:30 | the start is -infinity exactly when the field is missing, null, empty or 0 |
| ScrapeDomains.DomainOf | scrape_domains.py:31 | an entry with no institution or no domain contributes "" |
| ScrapeDomains.KeyLessTotal | scrape_domains.py:28-33 | Python's tuple order on `(end, start, domain)` is total |
| ScrapeDomains.KeyLessTransitive | scrape_domains.py:28-33 | Python's tuple order on `(end, start, domain)` is transitive |
| ScrapeDomains.MaxFrom | scrape_domains.py:28-33 | `max` returns one of its items and no item is greater than it |
| ScrapeDomains.MostRecent | scrape_domains.py:28-33 | with no entry the default `(inf, -inf, "")`; otherwise the key of some entry, and no entry has a greater key |
| ScrapeDomains.NoHistoryNoEntries | scrape_domains.py:28-32 | profiles without history contribute no entry |
| ScrapeDomains.NoHistoryGivesEmpty | scrape_domains.py:28-33 | with no history entry in any profile the domain is "" |
| ScrapeDomains.MostRecentIsLatest | scrape_domains.py:28-33 | against every entry: no later end; on an equal end no later start; on equal end and start no greater domain string |
| ScrapeDomains.OpenEndedWins | scrape_domains.py:29 | if some entry has no end, the domain comes from an entry with no end, whatever the starts |
| ScrapeDomains.KnownStartWins | scrape_domains.py:30 | among entries ending together with the chosen one, a known start beats an unknown one |
| ScrapeDomains.DomainColumn | scrape_domains.py:47-53 | every row's domain is the resolution of that row's author, through one lookup per distinct author |
| ExtractIata.MatchIsThreeCapitals | extract_iata.py:12 | a token without a line break matches the pattern exactly when it is three capitals A-Z |
| ExtractIata.CandidateIsAllowedCode | extract_iata.py:27-31 | a code survives exactly when it is a matching token of the response, not a token of the upper-cased domain, and not in the deny list |
| ExtractIata.DenyListNeverPicked | extract_iata.py:28-31 | none of USA, ETH, IIT, BJR, LRC, MBA, ROT ever survives |
| ExtractIata.CandidatesIgnoreOrder | extract_iata.py:27 | responses with the same set of tokens give the same survivors, whatever their order and repetitions |
| ExtractIata.ListOfSet | extract_iata.py:32 | `list(s)` holds each member of the set exactly once |
| ExtractIata.PickAirport | extract_iata.py:27-32 | the cell is "" exactly when no code survives, otherwise one surviving code; it never holds a `|`, so at most one code |
| ExtractIata.ExtractAirports | extract_iata.py:26-32 | every row's airport is picked from its own response and domain; the response, domain and other columns of every row are unchanged |

## Left out

- HTTP: the profile request of scrape_domains.py (lines 26-27) is not modelled; the returned profiles are a parameter, and `DomainColumn` takes the lookup as a function.
- pandas CSV reading and writing, `argparse`, logging and `_LOG.info` calls: no decision logic.
- `fillna("")` and missing (NaN) cells in the `domain` column: the column is a list of strings.
- `float(...)` of year fields: years are integers; a non-numeric year text, on which `float` raises, is not modelled.
- A `history` or `institution` that is JSON null, or a `domain` that is null, makes the script raise or compare `None`; the model covers absent keys only.
- The nltk `wordpunct_tokenize` tokenizer is a function parameter; nothing is assumed about how it cuts text.
- `str.upper()` is modelled for ASCII letters only.
- Which survivor `list(set)[-1:]` yields depends on Python's set iteration order; `ListOfSet` takes the members in an unspecified order, so the model states only that some survivor is chosen.
- ExtractIata.ExtractAirports: the `df['airport'] = None` initialisation of line 25 is not modelled, since every row's airport is overwritten by the loop.
- ExtractIata.PickAirport: the candidate shape is stated for tokens without a line break; for a token ending in a line break the pattern also matches, as Python's `$` does, and the model keeps that case.
- ScrapeDomains.AuthorDomain: an institution domain that itself holds an `@` is returned as it is; scrape_domains.py as written does not cut it at its last `@`, and the model follows the code.
- scrape_openreview.py, iclr_accepted.py and scrape_locations.py (page scraping and a chat-completion call) are not part of this model.
