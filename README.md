# Kasm community images explorer: a verified model

The project models the core of the explorer: a single-page catalogue of
community Kasm Workspaces registries, and the dataset builder that feeds it.
It covers how the page turns the crawled dataset into workspace records.
It covers how it filters and ranks them for the search box, the category
select, the sort select and the compatibility multi-select. It covers how it
pages through the results, and how a card labels a workspace. On the builder
side it covers how `search_github.py` keeps only the images that can be
pulled, and how it lists the categories in use.

Modules, in dependency order:

- `Common`: options, prefixes and containment, duplicate-free lists,
  `Filter`, `FilterMap`, `Map` and subsequences, with their lemmas, and the
  trailing-slash strip both programs use.
- `Sorting`: JavaScript's stable `Array.prototype.sort` as an insertion
  sort on sequences. It is proved a permutation, and for any consistent
  comparator proved sorted and stable: the elements it ties keep their
  input order.
- `JsText`: `String.prototype.trim` over the JavaScript white-space set,
  the default order of `sort()` (taken by code point), and decimal
  rendering of counts.
- `Dataset`: the raw JSON shapes, the normalised `Workspace` record, and the
  browser's own functions as a `Runtime` value.
- `Normalizer`: `normalizeWorkspaces` with its helpers (frontend/src/App.tsx:637-794).
- `Categories`: the category configuration, the alias table, the select's
  options and `formatCategoryLabel`.
- `Query`: `filteredWorkspaces`, the filter-score-sort pipeline.
- `Explorer`: the page state as a class, its handlers, and incremental paging.
- `WorkspaceCard`: the registry-link fallback and the relative "Updated …" label.
- `SearchGithub`: `check_image_pullability`, `skopeo_inspect`'s fallback
  and `parse_categories`.

Three behaviours of the code that the model keeps:

- The category `other` matches a workspace when SOME of its categories does
  not resolve (`Array.prototype.some` over `!canonical`). A workspace without
  any category therefore matches only `all` (`Query.NoCategoriesOnlyAll`,
  `Query.MatchesCategoryOther`).
- A label always claims its own normalised text in the alias table, even
  when an earlier category already registered it as an alias. Only aliases
  follow "first registration wins" (`Categories.LabelWins`, `Categories.AliasFirstWins`).
- `lastCommitTimestamp` is whatever `Date.parse` returns. A date before 1970
  gives a negative number, which the card shows as "Updated recently".

## Model

| member | source | states |
|---|---|---|
| JsText.Trim | frontend/src/App.tsx:768-770 | the result is a contiguous piece of the input with only JavaScript white space cut off at both ends, and it neither starts nor ends with white space |
| JsText.TrimIdempotent | frontend/src/App.tsx:768-770 | trimming twice is trimming once |
| JsText.NormalizeQuery | frontend/src/App.tsx:768-770 | `normalizeQuery` is the trimmed text in lower case; what the trim keeps and cuts is stated by JsText.Trim |
| JsText.CodePointCompare | frontend/src/App.tsx:746 | the default `sort()` comparison, taken character by character by code point, returns -1, 0 or 1 |
| JsText.CodePointCompareZero | frontend/src/App.tsx:746 | the comparison is 0 exactly for equal strings |
| JsText.CodePointCompareFlip | frontend/src/App.tsx:746 | swapping the arguments negates the comparison |
| JsText.CodePointCompareTransitive | frontend/src/App.tsx:746 | at-most comparisons chain |
| JsText.CodePointCompareConsistent | frontend/src/App.tsx:746 | the default order is a consistent comparator |
| JsText.SortDistinctStrings | frontend/src/App.tsx:746 | sorting distinct strings gives a strictly ascending, duplicate-free list with the same elements |
| JsText.Decimal | frontend/src/components/workspace-card.tsx:239 | a count renders as a non-empty run of digits without a leading zero |
| JsText.DecimalRoundTrip | frontend/src/components/workspace-card.tsx:239 | reading back the rendered digits gives the count |
| Sorting.SortBy | frontend/src/App.tsx:229-253 | the stable sort returns a permutation of its input, of the same length; its order is stated by Sorting.SortBySorted and its stability by Sorting.SortByStable |
| Sorting.SortBySorted | frontend/src/App.tsx:229-253 | with a consistent comparator the sorted list is ordered |
| Sorting.SortByMembers | frontend/src/App.tsx:229-253 | sorting keeps exactly the same elements |
| Sorting.InsertAtEnd | frontend/src/App.tsx:229-253 | an element that strictly precedes none of the sorted ones is placed after all of them, ties included |
| Sorting.SortBySortedIsIdentity | frontend/src/App.tsx:229-253 | with a consistent comparator, input already in order comes back unchanged |
| Sorting.InsertTied | frontend/src/App.tsx:229-253 | inserting into sorted input keeps the order of the elements tied with any `k`, and puts the inserted element after them when it is tied with `k` too |
| Sorting.SortByStable | frontend/src/App.tsx:229-253 | stability: with a consistent comparator, for every `k` the elements tied with `k` come out in the order they went in |
| Normalizer.Author | frontend/src/App.tsx:645 | the author is the longest prefix of the repository key without '/', stopping at the first '/' |
| Normalizer.ParseStars | frontend/src/App.tsx:772-783 | a value that is not a finite number, or is negative, gives 0; otherwise the floor of the value |
| Normalizer.EffectiveLastCommit | frontend/src/App.tsx:655-658 | `last_commit`, else `pushed_at`, else the fixed default 2024-01-01T00:00:00Z |
| Normalizer.ParseTimestamp | frontend/src/App.tsx:785-794 | the parsed date, or 0 when `Date.parse` gives NaN |
| Normalizer.RegistryUrl | frontend/src/App.tsx:646-652 | the pages URL (or the GitHub URL when absent) if it is http(s), else the sentinel "Valid URL not found"; so the result is always the sentinel or an http(s) URL |
| Common.StripTrailingSlash | frontend/src/App.tsx:722 | one trailing '/' is removed when there is one, and text not ending in '/' is kept; search_github.py:108-109 uses the same function |
| Normalizer.DeriveDockerImage | frontend/src/App.tsx:708-727 | `name`, else the first compatibility entry's image, else registry + '/' + slug; undefined exactly when none of the three is truthy; never the empty string |
| Normalizer.TagsMembers | frontend/src/App.tsx:668-670 | a tag is listed exactly when some compatibility entry offers it |
| Normalizer.Tags | frontend/src/App.tsx:668-670 | the `available_tags` of every new-style entry, concatenated in entry order; membership is stated by Normalizer.TagsMembers |
| Normalizer.NormalizeMajorMinor | frontend/src/App.tsx:749-756 | a version starting with digits '.' digits becomes that major.minor followed by ".x" |
| Normalizer.NormalizeChangedMatch | frontend/src/App.tsx:749-756 | a version is changed only when it starts with such a major.minor prefix |
| Normalizer.NormalizeNoMajorMinor | frontend/src/App.tsx:749-756 | a version without that prefix is kept as it is |
| Normalizer.NormalizeIdempotent | frontend/src/App.tsx:749-756 | normalising a normalised version changes nothing |
| Normalizer.NormalizeCompatibilityVersion | frontend/src/App.tsx:749-756 | `normalizeCompatibilityVersion`: a leading digits '.' digits becomes that prefix plus ".x", other text is kept; stated by the four lemmas above |
| Normalizer.EntryVersions | frontend/src/App.tsx:733-744 | an old-style string entry gives its normalised text, a new-style entry its normalised `version` when that is a string, anything else nothing |
| Normalizer.VersionTextsMembers | frontend/src/App.tsx:729-744 | a version is collected exactly when some entry gives it |
| Normalizer.CompatibilityVersionsSpec | frontend/src/App.tsx:729-747 | the versions are duplicate-free, strictly ascending in code-point order, and exactly those some entry gives |
| Normalizer.CompatibilityVersions | frontend/src/App.tsx:729-747 | `extractCompatibilityVersions`: the entries' normalised versions, deduplicated and sorted; stated by Normalizer.CompatibilityVersionsSpec |
| Normalizer.ExtractCompatibilityVersions | frontend/src/App.tsx:729-747 | the Set-filling loop returns the sorted, duplicate-free versions the entries give |
| Normalizer.EntryRecordsMembers | frontend/src/App.tsx:662-690 | a group yields exactly the records of its defined entries |
| Normalizer.GroupsRecordsMembers | frontend/src/App.tsx:661-691 | a repository's groups yield exactly the records of each group |
| Normalizer.RepoRecordsMembers | frontend/src/App.tsx:640-692 | a repository yields the record of each defined entry in each group, and nothing when the entry is null |
| Normalizer.DatasetRecordsRepos | frontend/src/App.tsx:640-693 | the dataset yields exactly the records of its repositories |
| Normalizer.DatasetRecordsMembers | frontend/src/App.tsx:637-693 | a record is produced exactly when it comes from some defined workspace of some present repository |
| Normalizer.EntryRecordsCount | frontend/src/App.tsx:662-666 | a group yields one record per defined entry |
| Normalizer.GroupsRecordsCount | frontend/src/App.tsx:661-691 | a repository yields one record per defined entry across its groups |
| Normalizer.DatasetRecordsCount | frontend/src/App.tsx:640-693 | no record is lost and none added: one per defined workspace entry |
| Normalizer.SourceRecordFields | frontend/src/App.tsx:673-689 | every one of the 15 fields of a record: repository key, author, registry URL, stars, last commit and its timestamp from the repository; slug; name falling back to the slug; description falling back to the placeholder; categories and architectures defaulting to empty; the docker image as `DeriveDockerImage` and the tags as `Tags` of the compatibility entries; the normalised compatibility versions; and the raw definition |
| Normalizer.RecordOf | frontend/src/App.tsx:673-689 | one `normalized.push` record built from the repository context and the definition; all 15 fields are stated by Normalizer.SourceRecordFields, which ties the image and tags to the contracts of DeriveDockerImage and Tags |
| Normalizer.SameRepositoryShares | frontend/src/App.tsx:645-659 | records of one repository share author, registry URL, stars and commit time |
| Normalizer.CanonicalCompare | frontend/src/App.tsx:695-705 | the load-time comparator: more stars first, then the later commit, then the collation of names; stated by Normalizer.CanonicalConsistent and Normalizer.CanonicalSortOrdered |
| Normalizer.CanonicalConsistent | frontend/src/App.tsx:695-705 | the load-time comparator is consistent whenever the collation is |
| Normalizer.CanonicalSortOrdered | frontend/src/App.tsx:695-705 | after the sort, stars descend, then commit time descends, then names ascend by collation |
| Normalizer.NormalizedWorkspacesSpec | frontend/src/App.tsx:637-706 | the normalised list is a permutation of the produced records, one per defined entry, ordered canonically |
| Normalizer.NormalizedWorkspaces | frontend/src/App.tsx:637-706 | `normalizeWorkspaces`: all records, sorted canonically; stated by Normalizer.NormalizedWorkspacesSpec |
| Normalizer.PushGroupRecords | frontend/src/App.tsx:662-690 | the inner loop appends the group's records to what was pushed before |
| Normalizer.PushRepoRecords | frontend/src/App.tsx:640-692 | the loop over groups appends the repository's records |
| Normalizer.NormalizeWorkspaces | frontend/src/App.tsx:637-706 | the imperative normaliser returns the canonically ordered permutation of all records |
| Categories.AliasTexts | frontend/src/App.tsx:118-122 | every alias is trimmed, and a non-string becomes '' |
| Categories.CleanAliasesTrimmed | frontend/src/App.tsx:118-122 | the kept aliases are non-empty and already trimmed |
| Categories.NormalizeAll | frontend/src/App.tsx:127 | the normalised aliases are the aliases normalised one by one, in order |
| Categories.ConfigOfWellFormed | frontend/src/App.tsx:97-132 | a kept entry has a non-empty trimmed label, non-empty trimmed aliases, and normalised forms of exactly those |
| Categories.ConfigOf | frontend/src/App.tsx:97-132 | a string entry or an object with a string `label` becomes a configuration of its trimmed label and cleaned aliases, anything else or an empty label nothing; stated by Categories.ConfigOfWellFormed |
| Categories.ConfigsOfMembers | frontend/src/App.tsx:96-134 | the configurations are exactly the entries that survive cleaning |
| Categories.ConfigsWellFormed | frontend/src/App.tsx:89-135 | every configuration is well formed |
| Categories.CategoryConfigs | frontend/src/App.tsx:89-135 | `categoryConfigs`: the kept entries of the categories document, or none when it is not an array; stated by Categories.ConfigsOfMembers and Categories.ConfigsWellFormed |
| Categories.BuildAliasLookup | frontend/src/App.tsx:137-148 | the table-filling loop gives each key its label when it is a label, else the label of the first configuration listing it as an alias, else nothing |
| Categories.AliasLookup | frontend/src/App.tsx:137-148 | `aliasLookup`: the table built one configuration at a time; what a key looks up to is stated by Categories.AliasLookupSpec |
| Categories.Resolve | frontend/src/App.tsx:137-148 | the reference resolution: a label resolves to itself, other text to the first configuration listing it as an alias; tied to the table by Categories.AliasLookupSpec |
| Categories.AliasesStepSpec | frontend/src/App.tsx:141-145 | an alias is added only when the key is not in the table yet |
| Categories.AliasLookupSpec | frontend/src/App.tsx:137-148 | looking a key up in the table resolves it: a label resolves to itself, otherwise to the first owner of the alias |
| Categories.LabelWins | frontend/src/App.tsx:140 | a label always maps to itself, even if an earlier category claimed it as an alias |
| Categories.AliasFirstWins | frontend/src/App.tsx:141-145 | an alias that is no label maps to the first category listing it |
| Categories.UnknownAbsent | frontend/src/App.tsx:137-148 | text that is neither a label nor an alias is not in the table |
| Categories.NormalizedLabels | frontend/src/App.tsx:151 | the labels are taken in configuration order |
| Categories.AvailableCategoriesSpec | frontend/src/App.tsx:150-157 | the options start with 'all' and end with 'other', and between them are the distinct normalised labels, each once, sorted by a consistent collation |
| Categories.AvailableCategories | frontend/src/App.tsx:150-157 | `availableCategories`: 'all', the distinct labels sorted, then 'other'; stated by Categories.AvailableCategoriesSpec |
| Categories.AvailableCompatibilitiesSpec | frontend/src/App.tsx:159-164 | the version list is the sorted permutation of the data, or empty when the data is not an array |
| Categories.AvailableCompatibilities | frontend/src/App.tsx:159-164 | `availableCompatibilities`: the versions document sorted in default order, or none for a non-array; stated by Categories.AvailableCompatibilitiesSpec |
| Categories.Words | frontend/src/App.tsx:798-799 | text that does not end in a separator splits into at least one segment |
| Categories.WordsShape | frontend/src/App.tsx:798-799 | every segment is non-empty and contains no '_', '-' or white space |
| Categories.WordsSplit | frontend/src/App.tsx:798 | a separator splits the text into the segments of each side |
| Categories.WordsSingle | frontend/src/App.tsx:798-799 | a word without separators is a single segment |
| Categories.WordsNone | frontend/src/App.tsx:798-799 | text made only of separators gives no segment |
| Categories.CapitalizeAll | frontend/src/App.tsx:800 | each segment in order gets its first character upper-cased |
| Categories.JoinTwo | frontend/src/App.tsx:801 | two segments are joined with one space |
| Categories.FormatTwoWords | frontend/src/App.tsx:796-802 | two words separated by any run of separators become the two capitalised words joined by one space |
| Categories.FormatOneWord | frontend/src/App.tsx:796-802 | a single word only gets its first character upper-cased |
| Categories.FormatCategoryLabel | frontend/src/App.tsx:796-802 | `formatCategoryLabel`: split at separators, capitalise each word, join with single spaces; stated by Categories.FormatTwoWords and Categories.FormatOneWord |
| Query.MatchesSearch | frontend/src/App.tsx:182-188 | the search condition: an empty needle, or some normalised field containing it |
| Query.MatchesCategory | frontend/src/App.tsx:190-206 | the category condition: 'all'; for 'other' some category that does not resolve; otherwise some category resolving to the selection; stated against the categories by Query.MatchesCategoryResolve and Query.MatchesCategoryOther |
| Query.MatchesCompatibility | frontend/src/App.tsx:208-216 | the version condition: nothing selected, or some selected version that the workspace offers |
| Query.Score | frontend/src/App.tsx:218-224 | the relevance score: 3 without a needle, 0 for an equal field, 1 for a prefix, else 2; stated by the Score lemmas |
| Query.RankCompare | frontend/src/App.tsx:229-253 | the ranking comparator; stated by Query.RankConsistent and Query.RankLe |
| Query.FilteredWorkspaces | frontend/src/App.tsx:166-256 | `filteredWorkspaces`: the matches with their scores, sorted by the ranking comparator; stated by Query.FilteredSpec and Query.FilteredOrdered |
| Query.FilterWorkspaces | frontend/src/App.tsx:166-256 | the result is the ranked list; it holds exactly the workspaces that match all three filters, each as often as in the input |
| Query.CollectMatches | frontend/src/App.tsx:171-227 | the forEach loop collects each matching workspace with its score, in input order |
| Query.VisitWorkspace | frontend/src/App.tsx:171-226 | one visit pushes the workspace and its score exactly when it matches |
| Query.RankerMatching | frontend/src/App.tsx:182-226 | a workspace is pushed exactly when it matches, and pushed unchanged |
| Query.CollectedWorkspaces | frontend/src/App.tsx:171-227 | the collected workspaces are the matching ones in input order |
| Query.CollectedScores | frontend/src/App.tsx:218-226 | every collected entry is an input workspace that matches, with its own score |
| Query.FilteredSpec | frontend/src/App.tsx:166-256 | the results are exactly the matching workspaces, each as often as in the input |
| Query.RankConsistent | frontend/src/App.tsx:229-253 | the ranking comparator is consistent whenever the collation is |
| Query.RankLe | frontend/src/App.tsx:229-253 | a ranking at most 0 means a lower score, or an equal score with the sort mode's keys in order |
| Query.FilteredOrdered | frontend/src/App.tsx:229-255 | scores ascend; at equal scores 'updated' orders by commit time, then stars, then name, and other modes by stars, then commit time, then name |
| Query.ScoreThreeIffNoNeedle | frontend/src/App.tsx:223-224 | the score is 3 exactly when the query is empty, and a match for a non-empty query scores at most 2 |
| Query.ExactIsPrefixIsContained | frontend/src/App.tsx:218-221 | an exact field is also a prefix match and contains the query |
| Query.LowerScoreFirst | frontend/src/App.tsx:230-232 | in a ranked list a lower score comes first |
| Query.ScoreExact | frontend/src/App.tsx:218-224 | a field equal to a non-empty query scores 0 |
| Query.ScoreNotExact | frontend/src/App.tsx:218-224 | without an equal field the score is above 0 |
| Query.ScorePrefix | frontend/src/App.tsx:220-224 | a field starting with the query scores at most 1 |
| Query.ScoreInfix | frontend/src/App.tsx:218-224 | when no field starts with a non-empty query the score is 2 |
| Query.SearchFieldsNonEmpty | frontend/src/App.tsx:172-180 | empty normalised fields are dropped |
| Query.ExactMatchesFirst | frontend/src/App.tsx:218-232 | results with a field equal to the query come before all others |
| Query.PrefixMatchesBeforeInfix | frontend/src/App.tsx:218-232 | with a query, results with a field starting with it come before results that only contain it further in |
| Query.NoCategoriesOnlyAll | frontend/src/App.tsx:190-206 | a workspace without categories matches the category 'all' and nothing else |
| Query.MatchesCategoryResolve | frontend/src/App.tsx:190-206 | a specific category matches exactly when some workspace category resolves to it by label or by first alias |
| Query.MatchesCategoryOther | frontend/src/App.tsx:190-197 | 'other' matches exactly when some workspace category resolves by neither label nor alias, or resolves to the empty string |
| Query.InitialFilters | frontend/src/App.tsx:78-81 | the opening filters: empty search, 'all', 'stars', no versions |
| Query.InitialFiltersNormalized | frontend/src/App.tsx:167-168 | the opening search text and category normalise to their lower-case forms |
| Query.InitialFiltersMatch | frontend/src/App.tsx:182-224 | under the opening filters every workspace matches and scores 3 |
| Query.InitialCollectedAll | frontend/src/App.tsx:171-227 | under the opening filters every workspace is pushed, in input order |
| Query.InitialCollected | frontend/src/App.tsx:171-227 | under the opening filters the pushed results are the workspaces in input order, each with score 3 |
| Query.CanonicalIsStarsRanked | frontend/src/App.tsx:229-253 | equal-score results over canonically ordered workspaces are in order for the 'stars' ranking |
| Query.InitialFiltersKeepOrder | frontend/src/App.tsx:166-256 | under the opening filters a canonically ordered list comes back unchanged |
| Query.InitialViewIsNormalized | frontend/src/App.tsx:166-256 | before any input the result list is the normalised collection in its canonical order |
| Explorer.ShownCount | frontend/src/App.tsx:262 | the cards shown are the smaller of the requested count and the number of results |
| Explorer.VisibleWorkspaces | frontend/src/App.tsx:263 | the visible cards are the first results, as many as are shown |
| Explorer.NextVisibleCount | frontend/src/App.tsx:465-468 | one click adds a step of 24, capped at the number of results |
| Explorer.HasMoreIff | frontend/src/App.tsx:265 | the button shows exactly when fewer cards are requested than there are results; otherwise all are shown |
| Explorer.LoadMoreProgress | frontend/src/App.tsx:461-468 | while the button shows, a click reveals between 1 and 24 more cards, and the button stays exactly when more than 24 were missing |
| Explorer.ClicksToShowAll | frontend/src/App.tsx:465-468 | after ceil((total - current) / 24) clicks every result is shown and the button is gone |
| Explorer.InitialCards | frontend/src/App.tsx:262-263 | the first render shows the first 24 workspaces of the normalised collection, in canonical order |
| Explorer.ExplorerState.CompatibilitySelectValue | frontend/src/App.tsx:374 | the select shows 'all' exactly when nothing is selected, else the first selected version |
| Explorer.ExplorerState.VisibleCards | frontend/src/App.tsx:262-263 | the cards are a prefix of the ranked results for the current filters, as long as the shown count, and each is a workspace of the collection meeting those filters |
| Explorer.ExplorerState.constructor | frontend/src/App.tsx:78-82 | the page starts with an empty search, 'all', 'stars', no versions selected and 24 cards, so its filters are the opening filters |
| Explorer.ExplorerState.SetSearchTerm | frontend/src/App.tsx:258-260 | the search text is set; paging resets only when the text changed; nothing else changes |
| Explorer.ExplorerState.SetSelectedCategory | frontend/src/App.tsx:333 | the category is set; paging resets only when it changed; nothing else changes |
| Explorer.ExplorerState.SetSelectedSort | frontend/src/App.tsx:355 | the sort mode is set; paging resets only when it changed; nothing else changes |
| Explorer.ExplorerState.SelectCompatibility | frontend/src/App.tsx:375-381 | 'all' clears the selection, a new version is appended, a selected one changes nothing; the selection stays duplicate-free and never holds 'all'; the select then shows 'all' after clearing, the version picked first, and keeps that first pick on later picks |
| Explorer.ExplorerState.RemoveCompatibility | frontend/src/App.tsx:400-404 | the version is removed and the others keep their order; paging resets |
| Explorer.ExplorerState.LoadMore | frontend/src/App.tsx:465-468 | the count becomes the capped next step, and strictly more cards show whenever the button was shown |
| WorkspaceCard.RegistryLink | frontend/src/components/workspace-card.tsx:45-47 | the sentinel is replaced by the repository's GitHub page; any other URL is used as is |
| WorkspaceCard.NormalizedRegistryLink | frontend/src/components/workspace-card.tsx:45-47 | for a normalised record the link is the accepted http(s) URL, else the repository's GitHub page |
| WorkspaceCard.UnitMs | frontend/src/components/workspace-card.tsx:230-235 | every unit is at least a minute long |
| WorkspaceCard.RoundRatio | frontend/src/components/workspace-card.tsx:238 | `Math.round(n / d)`: the nearest integer, halves rounded up |
| WorkspaceCard.RoundRatioMonotone | frontend/src/components/workspace-card.tsx:238 | rounding does not decrease as the age grows |
| WorkspaceCard.FormatUpdated | frontend/src/components/workspace-card.tsx:225 | the vague label is "Updated recently" |
| WorkspaceCard.RecentlyIff | frontend/src/components/workspace-card.tsx:224-226 | the label is "Updated recently" exactly when the timestamp is at or before the epoch |
| WorkspaceCard.UnparsedCommitIsRecent | frontend/src/components/workspace-card.tsx:224-226 | a commit date the browser cannot parse reads as "Updated recently" |
| WorkspaceCard.FutureIsOneMinute | frontend/src/components/workspace-card.tsx:229-239 | a commit time in the future reads "Updated 1 minute ago" |
| WorkspaceCard.CountBounds | frontend/src/components/workspace-card.tsx:237-263 | the count is at least 1, the unit has been reached, and it stays within 60 minutes, 24 hours, 7 days, 4 weeks or 12 months |
| WorkspaceCard.UnitOfMonotone | frontend/src/components/workspace-card.tsx:237-261 | a larger age never gets a smaller unit |
| WorkspaceCard.UnitOf | frontend/src/components/workspace-card.tsx:237-261 | the unit of an age: the first of minute, hour, day, week, month whose next unit is not yet reached, else year; stated by WorkspaceCard.CountBounds and WorkspaceCard.UnitOfMonotone |
| WorkspaceCard.OlderNeverYounger | frontend/src/components/workspace-card.tsx:228-263 | an older commit gets a larger unit, or the same unit with at least the same count |
| WorkspaceCard.PluralIff | frontend/src/components/workspace-card.tsx:239 | the label ends in "s ago" exactly when the count is not 1 |
| WorkspaceCard.RelativeUpdated | frontend/src/components/workspace-card.tsx:223-263 | the label's content: recently for timestamps at or before the epoch, else a unit and a count of at least 1 from the clamped age; stated by the lemmas above |
| WorkspaceCard.FormatRelativeUpdated | frontend/src/components/workspace-card.tsx:223-263 | `formatRelativeUpdated`: that content rendered as text; stated by WorkspaceCard.RecentlyIff and WorkspaceCard.PluralIff |
| SearchGithub.ParseCategories | search_github.py:273-283 | it raises (None) exactly when some `workspaces` or `categories` key it reads holds None; otherwise the list is duplicate-free and holds exactly the categories some workspace lists |
| SearchGithub.AddRepoCategories | search_github.py:278-282 | one repository's loop raises exactly when its `workspaces` or one of its `categories` holds None, and otherwise adds exactly its categories |
| SearchGithub.AddMapCategories | search_github.py:280-282 | one dictionary's loop raises exactly when one of its `categories` holds None, and otherwise adds exactly its categories |
| SearchGithub.SetToList | search_github.py:283 | the list holds the set's elements once each |
| SearchGithub.MapCategoriesMembers | search_github.py:278-281 | a workspace dictionary contributes exactly its workspaces' categories |
| SearchGithub.MapsCategoriesMembers | search_github.py:277-281 | a repository's dictionaries contribute exactly their categories |
| SearchGithub.AllCategoriesRepos | search_github.py:275-281 | the set is the union over the repositories |
| SearchGithub.AllCategoriesMembers | search_github.py:273-282 | a category is collected exactly when some workspace lists it |
| SearchGithub.RemoveAll | search_github.py:105 | `replace(p, '')` never lengthens the text |
| SearchGithub.RemoveAllAbsent | search_github.py:105 | text without the pattern is unchanged |
| SearchGithub.RemoveAllPrefix | search_github.py:105 | a leading occurrence is removed and the rest cleaned in turn |
| SearchGithub.CleanRegistry | search_github.py:103-109 | the clean-up succeeds exactly for a string registry; anything else raises |
| SearchGithub.CleanPlainRegistry | search_github.py:103-109 | a host without schemes only loses a trailing '/' |
| SearchGithub.CleanHttpsRegistry | search_github.py:104-109 | "https://" + host cleans to the host without its trailing '/' |
| SearchGithub.CleanHttpRegistry | search_github.py:104-109 | "http://" + host cleans to the host without its trailing '/' |
| SearchGithub.SkopeoFallback | search_github.py:46-62 | a successful bare inspection suffices; the registry-prefixed retry runs only after a failure and only with a non-empty registry |
| SearchGithub.SkopeoInspect | search_github.py:46-62 | `skopeo_inspect`: the bare name inspects, or the registry is non-empty and the prefixed name inspects; stated by SearchGithub.SkopeoFallback |
| SearchGithub.Passes | search_github.py:126-137 | an entry is kept when it is a dict with a truthy image that inspects; used by SearchGithub.ReturnedShape and SearchGithub.NoImageDropped |
| SearchGithub.Pullability | search_github.py:92-142 | `check_image_pullability`'s outcome: raises, None, or the workspace with its passing entries; stated by the lemmas below |
| SearchGithub.CheckImagePullability | search_github.py:92-142 | the function behaves as specified: it raises, returns None, or returns the workspace with only its pullable entries |
| SearchGithub.CollectPullable | search_github.py:118-137 | the loop reports whether every entry was a dict, and then returns the passing entries in order |
| SearchGithub.RaisesIff | search_github.py:103-108 | it raises exactly when `docker_registry` is missing or not a string |
| SearchGithub.NotAListNone | search_github.py:111-116 | a `compatibility` that is not a list gives None |
| SearchGithub.NonDictNone | search_github.py:120-124 | any entry that is not a dict gives None |
| SearchGithub.ReturnedShape | search_github.py:139-141 | a returned workspace keeps every other key unchanged, with a non-empty compatibility list that is an in-order subsequence of the original holding exactly its passing entries |
| SearchGithub.ReturnsIff | search_github.py:118-142 | with a string registry and a list of dicts, a workspace is returned exactly when some entry passes |
| SearchGithub.NoImageDropped | search_github.py:126-129 | an entry without a truthy image is never kept |

## Left out

- The React rendering, the modals, clipboard copy, the theme toggle and the welcome and how-to dialogs are presentation only, outside this model.
- `toLocaleLowerCase`, `localeCompare`, the URL parser behind `isValidHttpUrl` and `Date.parse` are host functions. They are parameters of the model (`Dataset.Runtime`), and their behaviour is not modelled. `toUpperCase` in `formatCategoryLabel` is a parameter in the same way. `Date.now()` is the `now` argument of `WorkspaceCard.RelativeUpdated`.
- Sorted results are proved ordered only under a consistent collation (`Sorting.Consistent`), because `localeCompare` is a parameter. Without that assumption only the permutation is proved.
- Query.InitialFiltersKeepOrder and Explorer.InitialCards assume that `toLocaleLowerCase` leaves '' and 'all' unchanged and that `localeCompare` is consistent, because both are parameters of the model.
- JavaScript numbers are modelled as mathematical integers and reals. Floating-point rounding, and `Number()` coercion of non-numeric star values, are outside the model. An unparseable star value is given as None.
- The `Number.isFinite` check in `formatRelativeUpdated` is not modelled, because a timestamp here is always an integer.
- JsText.CodePointCompare: strings are sequences of Unicode characters compared by code point. JavaScript's default `sort()` compares UTF-16 code units, which puts characters above U+FFFF before those in U+E000-U+FFFF; the model does not capture that difference.
- JavaScript object key order is given as the order of the pairs in the input; the model does not derive it.
- The in-place sorts of `results`, `normalized` and the compatibility list are modelled on values (`Sorting.SortBy`). The model does not capture the in-place update of those arrays, or the mutation of the imported compatibility data by `.sort()`.
- Query.CollectMatches: the per-workspace flags `matchesSearch`, `hasExact` and `hasPrefix` are not separate locals. The loop evaluates `Matches` and `ScoreOf`, which compute the same values in the same order of short-circuiting.
- Python dictionaries are modelled as lists of pairs (for `parse_categories`) or as maps (for `check_image_pullability`). Their insertion order and `.copy()` aliasing are not modelled.
- SearchGithub.ParseCategories: a key that is absent reads as `[]` (`Field.Missing`); one that holds None (`Field.Null`) makes Python raise TypeError, which the model returns as None. Ill-typed values (a non-list `categories`, a non-dict workspace) are outside its input types.
- SearchGithub.ParseCategories promises no order for its list, because `list(set)` has none.
- SearchGithub.SkopeoInspect: running `skopeo` is the oracle `Skopeo.succeeds`, and its printed diagnostics are not modelled. `str()` of a non-string image is the oracle `Skopeo.text`.
- The GitHub search, the API requests, the profanity check, the file output and the rest of `search_github.py` are network and file I/O, outside this model.
- The tests under tests/ call functions and constants (`filter_original_workspace_json`, `MAX_COMPATIBILITY_ENTRIES`, `STATS`) that `search_github.py` does not define. The model follows the code.
