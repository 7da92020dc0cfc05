# DBpedia title resolution, modelled in Dafny

This project models the core of `DBpediaTitles`, the part of the YodaQA
question-answering system that turns a candidate title (a mention taken from
a question) into DBpedia articles. For each title form of the title, in
order, it:

1. asks a fuzzy label-lookup service for matches and keeps every exact match
   (edit distance 0) except an immediate repeat of the previous kept name,
   or a single fuzzy match while nothing is kept yet;
2. asks a probability lookup service and keeps only its top entry;
3. merges the two lists: the label-lookup list wins, and the probability
   entry only overwrites `prob`, in place, on the label-lookup articles that
   name the same article (with an empty label-lookup list, the probability
   list is used as it is);
4. resolves every merged candidate through the knowledge graph: each
   returned row (page id, English label, resource IRI) whose IRI does not
   contain `/-` becomes a new article named by the IRI with its first 28
   characters (the length of `http://dbpedia.org/resource/`) dropped, whether
   or not the IRI starts with that prefix, with the candidate's matched label,
   edit distance and probability, the row's label as canonical label, and a
   score derived from the IRI;
5. returns the concatenated articles of the first title form that yields
   any, or the empty list.

Layout, one module per file:

- `articles.dfy` (`Articles`): the `Article` class with its fields and its
  constructors, `ArticleData` (the value of one object) and `Values` (the
  values of a list of objects).
- `sequences.dfy` (`Sequences`): `IsSubsequence`, order-preserving
  subsequences.
- `quoting.dfy` (`Quoting`): the quote escaping of a name before it goes into
  the resolution query, with its inverse.
- `lookups.dfy` (`Lookups`): the two lookup filters. `LabelStep`/`LabelKept`
  and `ProbKept` state on values what the loops keep; `LabelLookup` and
  `ProbLookup` are the loops, allocating one object per decoded element.
- `merging.dfy` (`Merging`): `Enrich`/`Merged` on values and the in-place
  `MergeResults` on objects. Its postcondition holds even when the same
  object occurs twice, or occurs in both lists.
- `resolution.dfy` (`Resolution`): `ResolveRows`, the row loop of
  `queryArticle` on values, with the exception that `substring` raises on an
  IRI shorter than the prefix; `KeptRows` and `ResolvedFrom` give an
  independent filter-then-map description of it; `QueryArticle` is the loop.
- `titles.dfy` (`Titles`): the collaborators as a `Services` value,
  `FormCandidates`, `ResolveAll`, `FormResult` and `QueryResult` on values,
  and the methods `LookupAndMerge`, `ResolveMerged` and `Query`.

Each method that allocates or updates `Article` objects is proved against a
function on values (`Values(results) == LabelKept(response)` and so on), and
the properties the source promises are proved as lemmas about those
functions.

The copy constructor gives a resolved article the row's label as its
canonical label (DBpediaTitles.java line 65), not the candidate's.

## Model

| member | source | states |
|---|---|---|
| Articles.Article.OfLabel | src/main/java/cz/brmlab/yodaqa/provider/rdf/DBpediaTitles.java:43-47 | both labels are the given label, page id as given; name unset (empty), doubles 0 |
| Articles.Article.OfMatch | src/main/java/cz/brmlab/yodaqa/provider/rdf/DBpediaTitles.java:49-53 | as `OfLabel`, plus the given name and edit distance |
| Articles.Article.OfMatchWithProb | src/main/java/cz/brmlab/yodaqa/provider/rdf/DBpediaTitles.java:55-60 | as `OfMatch`, plus the given probability; score stays 0 |
| Articles.Article.Resolved | src/main/java/cz/brmlab/yodaqa/provider/rdf/DBpediaTitles.java:61-69 | name, page id, score and prob as given, canonical label is the given label, matched label and edit distance are the base article's |
| Articles.Article.Decoded | src/main/java/cz/brmlab/yodaqa/provider/rdf/DBpediaTitles.java:218 | a decoded lookup element becomes a new object holding exactly its fields |
| Quoting.EscapeQuotes | src/main/java/cz/brmlab/yodaqa/provider/rdf/DBpediaTitles.java:115 | the escaped name is no shorter, does not start with a quote, and every quote in it follows a backslash |
| Quoting.EscapeRoundTrip | src/main/java/cz/brmlab/yodaqa/provider/rdf/DBpediaTitles.java:115 | unescaping the escaped name gives the name back |
| Quoting.EscapeInjective | src/main/java/cz/brmlab/yodaqa/provider/rdf/DBpediaTitles.java:115-128 | distinct names give distinct escaped names, so the query text identifies the candidate |
| Lookups.LabelKept | src/main/java/cz/brmlab/yodaqa/provider/rdf/DBpediaTitles.java:217-231 | no more kept than received; a non-empty response has its first entry kept first; every kept entry after the first is exact; no two adjacent kept entries share a name |
| Lookups.LabelKeptIsSubsequence | src/main/java/cz/brmlab/yodaqa/provider/rdf/DBpediaTitles.java:217-229 | the kept entries are an order-preserving subsequence of the response |
| Lookups.LabelKeptCoversExactNames | src/main/java/cz/brmlab/yodaqa/provider/rdf/DBpediaTitles.java:222-226 | the name of every exact match in the response is among the kept names |
| Lookups.LabelKeptCollapsesRuns | src/main/java/cz/brmlab/yodaqa/provider/rdf/DBpediaTitles.java:222-228 | for every response, the kept list is exactly the contenders (the first entry, whatever its distance, then every later exact match, in order) with each run of adjacent equal names reduced to its first entry, so a name that returns after a different one is kept again; and the last kept name is the last contender's name |
| Lookups.LabelKeptKeepsReturningName | src/main/java/cz/brmlab/yodaqa/provider/rdf/DBpediaTitles.java:222-228 | for exact matches `x, y, x'` with `x` and `x'` named alike and `y` different, followed by a fuzzy `f`, exactly `[x, y, x']` is kept: the suppression is not a global deduplication |
| Lookups.LabelKeptSingleFallback | src/main/java/cz/brmlab/yodaqa/provider/rdf/DBpediaTitles.java:227-229 | a non-empty response without exact matches yields exactly its first entry |
| Lookups.LabelLookup | src/main/java/cz/brmlab/yodaqa/provider/rdf/DBpediaTitles.java:203-236 | the kept objects are new and hold exactly the entries `LabelKept` keeps, in order |
| Lookups.ProbLookup | src/main/java/cz/brmlab/yodaqa/provider/rdf/DBpediaTitles.java:244-269 | empty for an empty response, otherwise exactly one object holding the response's first entry |
| Merging.MergedChangesOnlyProb | src/main/java/cz/brmlab/yodaqa/provider/rdf/DBpediaTitles.java:281-289 | with a non-empty label-lookup list the merge keeps length, order and every field but `prob`, which becomes the probability entry's `prob` exactly where the name equals its canonical label, and is unchanged when there is no probability entry |
| Merging.MergedIdempotent | src/main/java/cz/brmlab/yodaqa/provider/rdf/DBpediaTitles.java:281-289 | merging the merged list with the same probability list again changes nothing |
| Merging.MergeResults | src/main/java/cz/brmlab/yodaqa/provider/rdf/DBpediaTitles.java:278-290 | returns the probability list itself when the label-lookup list is empty, else the label-lookup list itself, whose objects now hold `Merged` of the old values; only `prob` changes on any of them and no other object is touched |
| Resolution.KeptRowsSubsequence | src/main/java/cz/brmlab/yodaqa/provider/rdf/DBpediaTitles.java:150-164 | the rows that survive the `/-` filter keep their order |
| Resolution.KeptRowsComplete | src/main/java/cz/brmlab/yodaqa/provider/rdf/DBpediaTitles.java:161-164 | every row whose IRI does not contain `/-` survives the filter |
| Resolution.ResolveRowsFailureSticks | src/main/java/cz/brmlab/yodaqa/provider/rdf/DBpediaTitles.java:166 | once the row loop has raised on a prefix of the rows, the whole loop raises the same exception |
| Resolution.ResolveRowsCharacterized | src/main/java/cz/brmlab/yodaqa/provider/rdf/DBpediaTitles.java:150-175 | the row loop raises exactly when some unskipped IRI is shorter than the prefix; otherwise it yields, in order, one resolved article per unskipped row (so no more articles than rows) |
| Resolution.ResolvedNames | src/main/java/cz/brmlab/yodaqa/provider/rdf/DBpediaTitles.java:161-166 | each resolved name is its row's IRI with its first 28 characters (the length of the prefix) dropped, and contains no `/-` |
| Resolution.QueryArticle | src/main/java/cz/brmlab/yodaqa/provider/rdf/DBpediaTitles.java:114-178 | on the rows returned for the escaped candidate name: raises exactly when `ResolveRows` does, with the same exception; otherwise it returns newly allocated objects holding exactly `ResolveRows` of the candidate's value, whose matched label, distance and prob they inherit |
| Titles.ResolveAllFailureSticks | src/main/java/cz/brmlab/yodaqa/provider/rdf/DBpediaTitles.java:103-104 | an exception while resolving one candidate is the exception of the whole form |
| Titles.ResolveAllInherits | src/main/java/cz/brmlab/yodaqa/provider/rdf/DBpediaTitles.java:102-105 | every resolved article has the matched label, edit distance and probability of one of the merged candidates |
| Titles.LookupAndMerge | src/main/java/cz/brmlab/yodaqa/provider/rdf/DBpediaTitles.java:88-90 | the merged objects hold exactly the merged candidate values of the title form |
| Titles.ResolveMerged | src/main/java/cz/brmlab/yodaqa/provider/rdf/DBpediaTitles.java:102-105 | the concatenated `queryArticle` results of all merged candidates in order, or the first exception |
| Titles.QueryFirstNonEmpty | src/main/java/cz/brmlab/yodaqa/provider/rdf/DBpediaTitles.java:82-108 | a non-empty answer is the yield of some title form, and every earlier form yielded the empty list |
| Titles.QueryEmptyIff | src/main/java/cz/brmlab/yodaqa/provider/rdf/DBpediaTitles.java:82-109 | the answer is the empty list exactly when every title form yields the empty list |
| Titles.QueryIgnoresLaterForms | src/main/java/cz/brmlab/yodaqa/provider/rdf/DBpediaTitles.java:106-107 | after a form yields something or raises, appending further forms does not change the answer |
| Titles.Query | src/main/java/cz/brmlab/yodaqa/provider/rdf/DBpediaTitles.java:81-110 | raises exactly when `QueryResult` does; otherwise its objects hold exactly `QueryResult`'s articles |

## Left out

- HTTP requests, URL encoding and `capitalizeTitle` (lines 205-213 and 246-254): each lookup service's answer is the decoded `results` array, given per title form by `Services.labelLookup` and `Services.probLookup`.
- JSON decoding by Gson: an element becomes a new object holding the element's fields (`Article.Decoded`); malformed or partial JSON is not modelled.
- The retry loop with its ten-second sleep (lines 86-101): it only ends when both lookups succeed, so the model takes one successful attempt (`LookupAndMerge`); `IOException` and `InterruptedException` are not modelled.
- Construction of the SPARQL texts and `rawQuery` (lines 117-147, 182-191): the resolution rows come from `Services.rawQuery`, keyed by the escaped name that is spliced into the query; graph-store failures are not modelled.
- `queryCount` and `Math.log` (line 171): the score of an IRI is `Services.logCount`, an arbitrary real; floating point (NaN, infinities, rounding) is not modelled, and `dist`, `score` and `prob` are reals.
- `cookedTitles`: `Query` takes the title forms it would produce.
- Logging, `printStackTrace` and the error message of line 94.
- Java `null` strings are the empty string, so no null case is modelled: a null name of the last kept entry raises at line 225, a null `canonLabel` of the probability entry raises at line 285, and a null candidate name raises at line 115 (the model queries `rawQuery("")` instead); a null name compared at line 225 or 285 is unequal to every string in Java, while two empty names are equal in the model.
- Dafny strings are sequences of Unicode scalar values, not UTF-16 code units: the length test that stands for `substring(28)` at line 166, and the suffix it takes, count characters, so an IRI with characters outside the Basic Multilingual Plane is not modelled exactly.
