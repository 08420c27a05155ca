# UkrFix SEO bot: verified model of the content-identity core

This project is a Dafny model of the deterministic core of the UkrFix SEO bot. The bot writes Ukrainian articles and publishes them to WordPress. The model covers the parts that decide what a published article is called and what it links to:

- **Slug builder** (`Slugify`):
  - Ukrainian-to-Latin transliteration with the fixed fallback table.
  - Tokenising, and stop-word filtering with de-duplication.
  - Keyword trimming, hyphen collapsing and length capping.
  - Template detection with the fixed fallback slug `ukrfix-article`.
  - Extraction of the text of the first `<h1>`.
- **Title optimizer** (`TitleOptimizer`):
  - Cleaning of whitespace and edge punctuation.
  - Removal of leading stop words.
  - The sentence-case and title-case variants.
  - Truncation at a word boundary with a `...` marker.
  - The choice of the published title, with the fallback `UkrFix: нова стаття`.
- **History store** (`History`): the published-article history. It covers:
  - The recent-title window.
  - The duplicate-title check.
  - An append that is idempotent per slug and builds the article address.
  - The internal-link recommender, with token-overlap scoring, a category bonus, a stable descending sort and a top-N cut.
- **Content assembler** (`ContentEnhancer`):
  - The idempotent call-to-action block.
  - The "read also" block of internal links, placed before the first call-to-action block.
- **Photo ranking** (`ImageService`):
  - The score of a stock photo.
  - The first best-scoring photo.
  - The preferred image size.
  - The search keywords taken from the query.

`Text` holds the string operations the source takes from Python: case mapping, `strip`/`rstrip`, `split`, `join`, `find`, `re.sub(r"X+", …)` and `re.findall(r"[…]+", …)`. Python slices with possibly negative bounds are written with `Text.Clamp`, `Text.SliceTo` and `Text.SliceFrom`.

The code is modelled on its own terms:

- **Loops become methods.** Each loop that builds a result step by step is a `method` with loop invariants, proved equal to a specification function. The functions' properties are proved as lemmas. These loops are:
  - the character loop of `_fallback_transliterate`;
  - the `seen`-set loop of `_filter_stop_words`;
  - the `pop(0)` loop of `_trim_stop_words`;
  - the word loop of `_to_title_case`;
  - the keyword loop of `_score_photo`;
  - the scoring and selection loops of `find_internal_links`.
- **The history list is a class.** `add_article_record` changes the caller's list in place, so the history is a `class` whose method updates its `records` field.
- **Everything else** is a function.

A history record is a datatype. Its fields default to `""` and `[]`, as every `rec.get(key, default)` does. The slug is an `Option`, because `rec.get("slug")` has no default.

Where the project's description and the code disagree, the model follows the code:

- **Image size.** The size chain `large or medium or large2x or original` returns `original` as it is (absent or empty) when no size is set. It never returns anything else in that case.
- **Title choice.** `optimize_title` never picks the sentence-case variant. Both variants are already truncated, so the title-case one always "fits" (for a budget of at least zero). When it is empty, the fixed title is chosen.
- **Truncation.** `_truncate` can lose its ellipsis. When the first `limit` characters hold no space, the marker is appended and then cut off again at the budget.
- **Recent titles.** `get_recent_titles` with `limit = 0` returns every title, because `-0 == 0` in the slice `[-limit:]`.
- **Edge spaces.** `_clean_text` can leave a space at an edge. For example, in `"- a"` the space stood next to the stripped punctuation.

## Model

| member | source | states |
|---|---|---|
| Slugify.UaMapIsLatin | src/utils/slugify.py:21-54 | every entry of the transliteration table is made of lower-case Latin letters |
| Slugify.CharOutput | src/utils/slugify.py:124-133 | what one character becomes holds only `a`–`z`, `0`–`9` and space |
| Slugify.Transliterate | src/utils/slugify.py:122-134 | the fallback transliteration holds only `a`–`z`, `0`–`9` and space |
| Slugify.TransliterateConcat | src/utils/slugify.py:122-134 | transliteration works character by character: it distributes over concatenation |
| Slugify.FallbackTransliterate | src/utils/slugify.py:122-134 | the loop appending one piece per character yields exactly the transliteration, which holds only `a`–`z`, `0`–`9` and space |
| Slugify.FallbackPiece | src/utils/slugify.py:126-133 | the loop body for one character appends exactly that character's output |
| Slugify.BlankTransliteration | src/utils/slugify.py:126-133 | a text with no table letter and no ASCII letter or digit transliterates to spaces only |
| Slugify.TransliterateUk | src/utils/slugify.py:137-148 | with the library left out, the transliteration holds only `a`–`z`, `0`–`9` and space |
| Slugify.Tokenize | src/utils/slugify.py:151-154 | every token is non-empty and made only of `[a-z0-9]` |
| Slugify.TokenizeOfJoin | src/utils/slugify.py:151-154 | tokenising space-joined non-empty `[a-z0-9]` words gives exactly those words back, in order: the tokens are the maximal runs |
| Slugify.FilterFromKeeps | src/utils/slugify.py:157-167 | the filter keeps no stop word and nothing already seen, no word twice, is a subsequence of the input, and keeps every other word |
| Slugify.Filtered | src/utils/slugify.py:157-167 | `_filter_stop_words` gives a subsequence without stop words and without repeats that contains every non-stop word of the input, the kept words in the order of their first occurrences |
| Slugify.FilterFromEmptyIff | src/utils/slugify.py:157-167 | the filter keeps nothing exactly when every word is a stop word |
| Slugify.FilterFromOrder | src/utils/slugify.py:160-166 | the kept words come in the order of their first occurrences in the input |
| Slugify.FilterWords | src/utils/slugify.py:158-167 | the loop with a `seen` set and an appended list yields exactly the filter's result |
| Slugify.FilterStopWords | src/utils/slugify.py:157-167 | `_filter_stop_words` with the module's stop words yields the filtered list |
| Slugify.Keywords | src/utils/slugify.py:198-201 | the keywords come from the tokens and are empty only for no tokens; when filtering leaves a word they are exactly the filtered list |
| Slugify.KeywordsDropStopWords | src/utils/slugify.py:198-201 | when some token is not a stop word no keyword is one; when all are stop words the tokens are used unfiltered |
| Slugify.TrimKeywords | src/utils/slugify.py:170-175 | the result is a prefix of the words and, for a cap of three or more, has length `min(len, cap)`; the "fewer than three" branch never changes that |
| Slugify.CollapseHyphens | src/utils/slugify.py:178-180 | no `--`, no edge hyphen, no new characters but `-`, never longer, and the same non-hyphen characters in order |
| Slugify.CollapseSteps | src/utils/slugify.py:178-180 | `_collapse_hyphens` squeezes hyphen runs, then strips hyphens at the front and at the end |
| Slugify.CollapseShaped | src/utils/slugify.py:178-180 | a well-shaped slug is left as it is |
| Slugify.CollapseIsRStrip | src/utils/slugify.py:178-180 | on a text without `--` or a leading hyphen it only strips hyphens at the end |
| Slugify.CollapseTrailing | src/utils/slugify.py:206-208 | on such a text it keeps the text when it does not end in a hyphen and drops exactly the final hyphen when it does |
| Slugify.TemplateSlugsMatch | src/utils/slugify.py:183-184 | `_looks_like_template` flags each of `article`, `post`, `page`, `blog` followed by a hyphen and one or more digits |
| Slugify.KeywordsAreSlugWords | src/utils/slugify.py:198-203 | the trimmed keywords of `[a-z0-9]` tokens are still `[a-z0-9]` words |
| Slugify.JoinedSlugShaped | src/utils/slugify.py:204 | hyphen-joining such words and collapsing gives `^[a-z0-9]+(-[a-z0-9]+)*$` or empty |
| Slugify.JoinShaped | src/utils/slugify.py:204 | hyphen-joining non-empty `[a-z0-9]` words is already well shaped and starts with the first word |
| Slugify.CutSlugShaped | src/utils/slugify.py:206-208 | cutting a well-shaped slug to the budget and collapsing again keeps it well shaped |
| Slugify.CutPrefix | src/utils/slugify.py:206-208 | cutting a well-shaped slug and collapsing gives a prefix of the slug at most one character shorter than the cut: `slug[:max]` without its hyphen when it ends in one, else `slug[:max]` |
| Slugify.CutSlug | src/utils/slugify.py:206-208 | a slug within the budget is kept; otherwise the result fits a non-negative budget, and for a well-shaped slug and a positive budget it is `slug[:max]`, less its last character exactly when that is a hyphen |
| Slugify.FallbackSlugIsValid | src/utils/slugify.py:210-213 | `ukrfix-article` is well shaped and is not a template slug |
| Slugify.SlugWords | src/utils/slugify.py:197-203 | the slug words are non-empty `[a-z0-9]` words: the first `min(5, n)` keywords of the transliterated heading's tokens, and none exactly when there is no token |
| Slugify.GenerateSlug | src/utils/slugify.py:187-213 | the slug is never empty, is `^[a-z0-9]+(-[a-z0-9]+)*$`, never matches `^(article\|post\|page\|blog)-\d+$`, and fits a non-negative `max_length` unless it is the fallback; any other slug is exactly the hyphen-joined slug words cut to the budget (so all of them when they fit and not a template); the fallback is taken exactly when the cut slug is empty, a template, or the fallback itself |
| Slugify.BlankHeadingGetsFallback | src/utils/slugify.py:197-213 | a heading with no letter or digit (`""`, `"---"`, `"?!"`) gets `ukrfix-article` |
| Slugify.H1Inner | src/utils/slugify.py:223-226 | without `<h1` (in any case) there is no heading |
| Slugify.StripTags | src/utils/slugify.py:227 | replacing tags by spaces never lengthens the text, adds no character but a space, leaves a text without `<` unchanged, and leaves no match of `<[^>]+>` behind |
| Slugify.StripTagsReplacesTag | src/utils/slugify.py:227 | a tag `<x>` with a non-empty `x` free of `>` becomes one space and the scan goes on after it |
| Slugify.StripTagsCopies | src/utils/slugify.py:227 | a character other than `<` is copied and the scan goes on after it |
| Slugify.StripTagsKeepsBareOpen | src/utils/slugify.py:227 | a `<` that opens no tag (`<>`, or no `>` anywhere after it) is copied |
| Slugify.CleanedHeading | src/utils/slugify.py:228 | collapsing and trimming whitespace gives exactly `" ".join(text.split())`: single spaces, no edge whitespace, the same words; the result is empty exactly when the text is all whitespace |
| Slugify.CleanedWords | src/utils/slugify.py:228 | `re.sub(r"\s+", " ", text).strip()` has the same words as `text` and is their space-join |
| Slugify.ExtractH1Text | src/utils/slugify.py:216-229 | `None` for empty html or no `<h1`; a text exactly when there is a first heading whose inner html, with tags replaced, holds a non-space character; that text is the space-join of the words of the tag-stripped heading, so non-empty, single-spaced and trimmed |
| TitleOptimizer.CleanText | src/utils/title_optimizer.py:40-44 | every whitespace run is one space, neither edge is one of `-–—:;,.`, and the result is a piece of the whitespace-collapsed text |
| TitleOptimizer.WordsOfJoin | src/utils/title_optimizer.py:52 | splitting the space-join of non-empty, whitespace-free words gives the words back |
| TitleOptimizer.DropLeadingStopWords | src/utils/title_optimizer.py:47-52 | what remains is a suffix of the words, everything dropped was a stop word, and the first remaining word is not one |
| TitleOptimizer.WithoutLeadingStopWords | src/utils/title_optimizer.py:47-52 | splitting the returned text gives exactly the words left after the leading stop words |
| TitleOptimizer.TrimStopWords | src/utils/title_optimizer.py:47-52 | the `pop(0)` loop returns that text |
| TitleOptimizer.SentenceCase | src/utils/title_optimizer.py:55-60 | empty exactly when the cleaned text is; otherwise the cleaned text with only its first character upper-cased |
| TitleOptimizer.Capitalize | src/utils/title_optimizer.py:72 | same length, the first character upper-cased, the others unchanged |
| TitleOptimizer.TitleWords | src/utils/title_optimizer.py:63-73 | one title-cased word per word |
| TitleOptimizer.TitleWordsCase | src/utils/title_optimizer.py:66-72 | the lengths are kept; the first word and every later non-stop word get an upper-case initial and keep the rest as it is; later stop words are lower-cased |
| TitleOptimizer.TitleCaseWords | src/utils/title_optimizer.py:66-72 | the enumerate loop appending to `title_words` yields those words |
| TitleOptimizer.TitleCaseWord | src/utils/title_optimizer.py:68-72 | one pass of the loop gives that word's title-cased form |
| TitleOptimizer.TitleCase | src/utils/title_optimizer.py:63-73 | the returned text splits back into exactly the title-cased words, as many as the cleaned text has |
| TitleOptimizer.ToTitleCase | src/utils/title_optimizer.py:63-73 | `_to_title_case` returns that text |
| TitleOptimizer.WordCut | src/utils/title_optimizer.py:81-82 | with a space, the prefix before the last space (the last word goes even when complete); without one, the text itself |
| TitleOptimizer.TruncationCut | src/utils/title_optimizer.py:80-83 | a prefix of the text within a non-negative budget, not ending in `-–—:;,`; when the first `limit` characters hold a space, it ends at the last such space less the punctuation just before it, and otherwise it is the first `limit` characters less their trailing punctuation |
| TitleOptimizer.Truncate | src/utils/title_optimizer.py:76-88 | unchanged within the budget; over it, that cut followed by as much of `...` as the budget leaves room for (the full `...` when three characters are free), so a non-negative budget is never exceeded |
| TitleOptimizer.TruncateIdempotent | src/utils/title_optimizer.py:76-88 | truncating twice is truncating once |
| TitleOptimizer.TitleVariant | src/utils/title_optimizer.py:100 | the title-case variant fits a non-negative budget |
| TitleOptimizer.SentenceVariant | src/utils/title_optimizer.py:99 | the sentence-case variant fits a non-negative budget |
| TitleOptimizer.OptimizeTitle | src/utils/title_optimizer.py:91-106 | the chosen title is never empty; for a non-negative budget it is the title-case variant when that is not empty and `UkrFix: нова стаття` otherwise; each returned variant is itself or the chosen title, and fits the budget unless it is the fixed title |
| History.Tokens | src/utils/history.py:18-20 | no empty token, and every token is made of word characters and apostrophes |
| History.TokensIgnoreCase | src/utils/history.py:18-20 | tokenising ignores case |
| History.TokensOfSeparators | src/utils/history.py:18-20 | a text without word characters or apostrophes has no token |
| History.TagTokens | src/utils/history.py:82 | the tag tokens are exactly the lower-cased tags |
| History.Titles | src/utils/history.py:45 | the titles of the records in order, missing ones read as `""` |
| History.RecentTitles | src/utils/history.py:42-45 | a suffix of the titles in order; `min(n, limit)` of them for a positive limit, all of them for `limit = 0`, `n + limit` (at least 0) for a negative one |
| History.Normalize | src/utils/history.py:51-52 | the lower-cased title from its first to its last non-whitespace character, everything cut off on either side being whitespace; empty exactly for an all-whitespace title |
| History.NormalizeIgnoresCase | src/utils/history.py:51-52 | lower-casing a title does not change its normal form |
| History.NormalizeIgnoresEdges | src/utils/history.py:51-52 | surrounding whitespace does not change the normal form |
| History.DuplicateIgnoresCaseAndEdges | src/utils/history.py:48-52 | the duplicate check `IsDuplicateTitle` is blind to the candidate's case and surrounding whitespace |
| History.StoredTitleIsDuplicate | src/utils/history.py:48-52 | the title of any stored record is a duplicate (`IsDuplicateTitle`) |
| History.RecordUrl | src/utils/history.py:58 | the site address without its trailing slashes (everything cut off being `/`), one `/`, the slug without surrounding slashes, and a final `/` |
| History.RecordUrlIgnoresSlashes | src/utils/history.py:58 | an extra slash after the site address or around the slug gives the same address |
| History.NewRecord | src/utils/history.py:64-70 | the new record carries the article's title, slug, tags and category and the built address |
| History.AddRecordExtends | src/utils/history.py:55-73 | `AddRecord` keeps the old records in place as a prefix, adds at most one, the slug is then present, and one is added exactly when the slug was absent |
| History.AddRecordIdempotent | src/utils/history.py:60-62 | adding the same slug twice records it once |
| History.AddRecordKeepsSlugsUnique | src/utils/history.py:60-71 | adding keeps slugs unique |
| History.AddRecordThenQueries | src/utils/history.py:55-73 | after a new slug is added, its title is the last recent title and is a duplicate |
| History.HistoryStore.AddArticleRecord | src/utils/history.py:55-73 | the stored records become the appended history; the history itself is returned; slug uniqueness is preserved |
| History.ArticleTokens | src/utils/history.py:82-84 | the article's tokens hold its tags, its title tokens and its lower-cased category |
| History.RecordTokens | src/utils/history.py:95-98 | a record's tokens hold its tags and title tokens, and its category when that is not empty |
| History.ArticleTokensMembers | src/utils/history.py:82-84 | the article's tokens are exactly its lower-cased tags, its title tokens and its lower-cased category |
| History.RecordTokensMembers | src/utils/history.py:95-98 | a record's tokens are exactly its lower-cased tags, its title tokens and, when not empty, its lower-cased category |
| History.Score | src/utils/history.py:88-104 | a record is scored exactly when it is not the article, has an address and shares a token; the score is then the number of shared tokens, plus 1 exactly when the categories agree up to case |
| History.SameCategoryScoresTwo | src/utils/history.py:100-106 | a record in the article's non-empty category scores at least 2: the shared category token and the bonus |
| History.CandidatesSound | src/utils/history.py:86-108 | every entry of `Candidates` is a stored record with the score it earns |
| History.CandidatesComplete | src/utils/history.py:86-108 | every stored record that earns a score has its entry |
| History.CandidatesStep | src/utils/history.py:87-108 | one step of the loop over `reversed(records)` |
| History.CandidatesAppend | src/utils/history.py:87 | the most recent record is visited first |
| History.Insert | src/utils/history.py:110 | one insertion of the stable sort adds one entry, at the head or after the old head |
| History.InsertPermutes | src/utils/history.py:110 | inserting adds exactly that entry (multiset) |
| History.InsertSorted | src/utils/history.py:110 | inserting into a descending list keeps it descending |
| History.InsertWithScore | src/utils/history.py:110 | the inserted entry goes after every entry of the same score |
| History.SortByScore | src/utils/history.py:110 | the descending sort gives a permutation in non-increasing score order |
| History.SortByScoreStable | src/utils/history.py:110 | the sort is stable: the entries of each score keep their order |
| History.Ranked | src/utils/history.py:86-110 | the ranking is a non-increasing permutation of the scored records |
| History.LinksOf | src/utils/history.py:111-113 | one link per chosen entry, in order, with its title and address |
| History.InternalLinks | src/utils/history.py:76-114 | `[]` for an empty history; for `max_links >= 0`, `min(max_links, number of scored records)` links |
| History.InternalLinksRelevant | src/utils/history.py:88-102 | every link belongs to a stored record that is not the article, has an address and shares a token |
| History.LeftOutRanksLower | src/utils/history.py:110-112 | an entry left out by the top-N cut ranks after every chosen one |
| History.InternalLinksBest | src/utils/history.py:100-112 | a linkable record is left out only when the list is full of records scoring at least as much |
| History.RankedTiesRecentFirst | src/utils/history.py:87-110 | among equal scores the most recent record comes first |
| History.ScoreRecord | src/utils/history.py:88-108 | one pass of the scoring loop gives the record's entry, or none where the loop continues |
| History.ScoreHistory | src/utils/history.py:86-108 | the loop over `reversed(records)` builds exactly the scored list |
| History.SelectLinks | src/utils/history.py:111-113 | the selection loop yields one link per chosen entry |
| History.FindInternalLinks | src/utils/history.py:76-114 | `find_internal_links` returns exactly those links |
| ContentEnhancer.ListingPathIsLower | src/utils/content_enhancer.py:10 | `add-listing` is its own lower-case form |
| ContentEnhancer.WithCtaBlockHasCta | src/utils/content_enhancer.py:12-23 | every text that embeds the call-to-action block passes the check, through its `add-listing` button |
| ContentEnhancer.EnsureCtaBlock | src/utils/content_enhancer.py:20-25 | the result always carries the call to action; it equals the input exactly when the input already did; otherwise it is the content without trailing whitespace, then `"\n\n"`, then the block and a newline |
| ContentEnhancer.EnsureCtaBlockIdempotent | src/utils/content_enhancer.py:20-25 | ensuring twice is ensuring once |
| ContentEnhancer.ItemsHtml | src/utils/content_enhancer.py:36-41 | the items are empty exactly when no link has an address |
| ContentEnhancer.ItemsHtmlConcat | src/utils/content_enhancer.py:36-40 | the items of two link lists are those of each, in order |
| ContentEnhancer.ItemsHtmlListsEvery | src/utils/content_enhancer.py:36-40 | every link with an address has its `<li>` |
| ContentEnhancer.LinksBlockMarked | src/utils/content_enhancer.py:44-51 | the block carries `internal-links` |
| ContentEnhancer.LinksBlockHoldsItems | src/utils/content_enhancer.py:44-51 | the block holds the list items it is built around |
| ContentEnhancer.LinksBlockEnds | src/utils/content_enhancer.py:44-51 | the block ends with `</div>` |
| ContentEnhancer.PlaceBlockBeforeCta | src/utils/content_enhancer.py:54-57 | with a call-to-action marker, the block goes between the trimmed text before the first marker and the text from the marker on |
| ContentEnhancer.PlaceBlockContains | src/utils/content_enhancer.py:54-59 | whatever the block contains, the result contains |
| ContentEnhancer.PlaceBlockKeepsTail | src/utils/content_enhancer.py:54-57 | the text from the first marker on ends the result verbatim, and the trimmed text before it starts the result |
| ContentEnhancer.PlaceBlockAtEnd | src/utils/content_enhancer.py:59 | without a marker, the trimmed content starts the result and `</div>` plus a newline ends it |
| ContentEnhancer.InjectInternalLinks | src/utils/content_enhancer.py:28-59 | the content is unchanged exactly when there are no links, `internal-links` already occurs, or no link has an address; otherwise the result carries `internal-links` and all the list items |
| ContentEnhancer.InjectListsEveryLink | src/utils/content_enhancer.py:36-59 | after an injection every link with an address appears as its own `<li>` |
| ContentEnhancer.InjectInternalLinksIdempotent | src/utils/content_enhancer.py:33-51 | injecting the same links again changes nothing, and once a block with an address was placed no later links change anything |
| ContentEnhancer.InjectKeepsCtaTail | src/utils/content_enhancer.py:54-57 | after an injection before the call to action, the text from the first marker on is kept verbatim at the end |
| ContentEnhancer.InjectAppendsWithoutCta | src/utils/content_enhancer.py:59 | without a call to action the block is appended after the trimmed content |
| ImageService.MatchCount | src/image_service.py:19-21 | at most one match per keyword entry; all entries match exactly when every keyword is in the alt text, none exactly when no keyword is |
| ImageService.MatchCountConcat | src/image_service.py:19-21 | matches of two keyword lists add up |
| ImageService.PhotoScoreBounds | src/image_service.py:16-24 | `PhotoScore` lies in `0 <= score <= 2·len(keywords) + 1`; it is odd exactly for a photo at least as wide as high (also with no dimensions), and half of it is the match count |
| ImageService.ScorePhoto | src/image_service.py:16-24 | the loop adding 2 per keyword found, plus the orientation bonus, gives the photo's score |
| ImageService.RepeatedKeywordCountsTwice | src/image_service.py:19-21 | a keyword listed twice counts twice |
| ImageService.KeywordsOutweighOrientation | src/image_service.py:16-24 | one more matched keyword outweighs the orientation bonus |
| ImageService.OrientationBreaksTies | src/image_service.py:22-23 | with equal matches a landscape photo scores one more than a portrait one |
| ImageService.Scores | src/image_service.py:56 | the key `max` compares, for every photo |
| ImageService.FirstMaxIndex | src/image_service.py:56 | the position of a highest key, before which every key is strictly lower |
| ImageService.BestIndex | src/image_service.py:56 | `max` picks the first photo of highest score |
| ImageService.BestPhoto | src/image_service.py:52-56 | `None` exactly for no photos; otherwise a listed photo no other outscores, and every photo before it scores strictly less |
| ImageService.UniqueBestIsChosen | src/image_service.py:56 | a photo scoring strictly more than all others is the one chosen |
| ImageService.PreferredSource | src/image_service.py:57-59 | the first truthy size among large, medium, large2x, original; a truthy one exactly when some size is; otherwise `original` as it is |
| ImageService.SelectImage | src/image_service.py:52-59 | nothing for no photos; otherwise the preferred size of the first photo of highest score |
| ImageService.LongLowered | src/image_service.py:55 | every kept word is longer than two characters, and there are at most as many as words |
| ImageService.SourceIndex | src/image_service.py:55 | each keyword is some word longer than two characters, lower-cased |
| ImageService.LongLoweredEmpty | src/image_service.py:55 | there are no keywords exactly when no word is longer than two characters |
| ImageService.LongLoweredConcat | src/image_service.py:55 | the keywords of two word lists are those of each, in order |
| ImageService.LongLoweredSingle | src/image_service.py:55 | one word gives itself lower-cased when longer than two characters, and nothing otherwise; with the previous row this fixes the result exactly |
| ImageService.LongLoweredSpaceFree | src/image_service.py:55 | keywords of whitespace-free words are whitespace-free |
| ImageService.SplitBackslashS | src/image_service.py:55 | splitting with the pattern as written always gives at least one piece |
| ImageService.KeywordsAsWritten | src/image_service.py:55 | as written, the keywords are longer than two characters |
| ImageService.SplitWithoutBackslash | src/image_service.py:55 | a text without a backslash is not split at all by the pattern as written |
| ImageService.KeywordsAsWrittenIgnoreSpaces | src/image_service.py:55 | as written, a query without a backslash gives itself, lower-cased, as the only keyword (if longer than two characters) |
| ImageService.Keywords | src/image_service.py:55 | the intended keywords are longer than two characters and free of whitespace |
| ImageService.KeywordsOfWords | src/image_service.py:55 | a query of non-empty, whitespace-free words joined by single spaces has exactly the keywords of that word list |
| ImageService.LongLoweredAllLong | src/image_service.py:55 | words that are all long enough are kept, each lower-cased |
| ImageService.TwoWordKeywords | src/image_service.py:55 | split on whitespace, a two-word query gives both words as keywords |
| ImageService.TwoWordQuery | src/image_service.py:55 | a two-word query gives two intended keywords but one as-written keyword holding the space |

## Left out

- Reading and writing the history file (`load_history`, `save_history`, src/utils/history.py:23-39) is file I/O. The `save_history` call at src/utils/history.py:72 is left out with it. The model takes the history as a value, which stands for `records` passed in (the `records is None` default that loads the file is not modelled).
- `get_pexels_image`'s HTTP request, its `try`/`except`, and `upload_image_to_wp` are network I/O. The model starts from the fetched photo list. A photo whose `alt` is JSON `null` would make `.lower()` raise and the function return `None`: the model reads a missing alt as `""` only.
- `cyrtranslit.to_latin` is a foreign library. `transliterate_uk` is modelled as the fallback table. The guard at src/utils/slugify.py:143 is not modelled, because it only runs after the library. Its raw string doubles the backslashes, so it is not a Cyrillic range. It matches a backslash, `u`, `4`, `F` and every character from `0` to `\` (digits, `A`–`Z` and `:;<=>?@[`). So library output holding a lower-case `u`, which most Latin transliterations do, a digit or a capital letter falls back to the table.
- Unicode case mapping, `isspace`, `\w` and `\d` are concrete approximations: ASCII plus the Ukrainian Cyrillic letters, one character to one character. Multi-character case mappings are not modelled.
- History.SortByScore: `scored.sort(…, reverse=True)` sorts the list in place. The model sorts a value with a stable insertion sort and proves it a stable, non-increasing permutation. The in-place update is not modelled.
- History.HistoryStore.AddArticleRecord: the source appends to the caller's list and returns that same list. The model keeps the list in a field and returns its new value, so aliasing between the two is not modelled.
- Slugify.H1Inner: its contract states only the no-heading case. The leftmost-match reading of `<h1[^>]*>(.*?)</h1>` is its definition, which `Slugify.ExtractH1Text` builds on.
- TitleOptimizer.CleanText: it states where the result lies in the collapsed text. It does not state that exactly the edge whitespace and edge punctuation runs were removed.
- History.Tokens: it does not state that the tokens are the maximal runs, only that they are non-empty runs of token characters. Maximality is its definition through `Text.Runs`.
- Negative `limit`, `max_length` and `max_links` follow Python's slice rules through `Text.Clamp`. Properties that need a non-negative bound say so.
- Records whose fields hold values of other types (a non-list `tags`, a non-string `title`) are outside the model.

## Findings

| source | as written | input that shows it | evidently intended | confidence | as-written member | corrected member |
|---|---|---|---|---|---|---|
| src/image_service.py:55 | `re.split(r"\\s+", query)` splits on a backslash followed by `s`, so an ordinary query stays in one piece and becomes a single keyword holding spaces | the query `red car` gives the keyword list `["red car"]`, where `["red", "car"]` was meant; a photo whose alt text is `a car in red` then gets no keyword points | split on runs of whitespace (`\s+`) and keep the words longer than two characters | not executed | ImageService.TwoWordQuery | ImageService.Keywords |

`ImageService.KeywordsAsWritten` models the pattern as written. `ImageService.ImageForQuery` ranks photos with the corrected `ImageService.Keywords`.
