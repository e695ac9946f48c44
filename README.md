# YouTube comment dashboards — a verified model of their core logic

The repository has two Streamlit dashboards for one YouTube video.

- `app3.py` is the full dashboard. It extracts the video id from the URL and walks the paginated comment-thread listing, expanding replies into rows of their own. It then shows:
  - basic statistics;
  - the top commenters;
  - the most-liked and most-replied comments;
  - a keyword table. Each comment is cleaned, tokenised, filtered, and counted as unigrams plus bigrams. The per-comment results are then merged.
- `app.py` is the small analyzer. It walks the top-level comments only. It shows the first ten, then the ten most frequent authors, or a "no comments" message.

This project models those rules in Dafny and proves what each one promises. The API responses are given as a sequence of pages:
- page k is the response to the k-th request;
- the walk requires that some page carries no next-page token.

Python's `Counter` is an ordered association list (`Counters.Counter`), because insertion order decides ties in `most_common`. `most_common(n)`, `DataFrame.nlargest(n, col)` and `value_counts().head(n)` are one stable descending sort followed by a take (`Ranking.TopN`).

The modules follow the program's structure:

| module | models |
|---|---|
| `YouTubeApi` | thread items, reply snippets, pages; which prefix of the pages the loop fetches |
| `ThreadRows` | app3's `get_video_comments` (rows with replies) |
| `MessageRows` | app.py's `get_video_comments` (top-level only) |
| `VideoUrl` | `video_url.split('v=')[1]` |
| `Strings` | `str.find` and `str.split` with a separator |
| `TextCleaner` | `clean_text` |
| `Keywords` | `extract_keywords` after tokenisation |
| `Counters` | `Counter(iterable)`, `dict(pairs)`, `Counter + Counter`, `most_common` |
| `Ranking` | stable top-N |
| `Tables` | a column of a table of rows and how often a value occurs in it |
| `CommentAnalysis` | the analysis tables and the keyword merge of app3 |
| `Dashboard` | app3's `main` and `analyze_comments` as one run with an error result |
| `VideoAnalyzer` | the script body of app.py |

The following are parameters:
- `html.unescape`;
- the Janome tokenizer;
- `str.lower`;
- the Unicode classes behind `\w`, `\d` and `\s`.

`TextCleaner.Consistent` lists the only facts about the character classes that the proofs use. Examples: digits are word characters, and word and space characters are disjoint.

The model keeps the two errors the code raises itself:
- With zero comments, `app3.py` fails. `pd.DataFrame([])` has no `published_at` column, so `display_comments_list` raises `KeyError`, and the generic handler in `main` reports it. `Dashboard.AnalyzeVideo` returns `Failure(KeyError)` in that case. `app.py` instead takes its "no comments" branch (`VideoAnalyzer.ReportSpec`).
- A URL without `v=` makes both files raise `IndexError`, because `split('v=')` then returns a single piece and `[1]` is out of range. This is the `IndexError` result.

## Model

| member | source | states |
|---|---|---|
| YouTubeApi.Fetched | app3.py:34-66 | the pages the `while True` loop requests, in order, stopping after the first page whose `nextPageToken` is absent or empty; its properties are those of `YouTubeApi.FetchedSpec` |
| YouTubeApi.FetchedSpec | app3.py:34-66 | the loop fetches a non-empty prefix of the pages, up to and including the first page without a next-page token; every earlier fetched page has one; a first page without a token is the only page fetched |
| ThreadRows.GetVideoComments | app3.py:30-68 | the while loop returns the flattened rows of exactly the fetched pages, in page-then-item order, and as many rows as the sum over all fetched items of 1 + replies; a first page without a token yields exactly its own rows |
| ThreadRows.AppendPageRows | app3.py:43-62 | the inner for loops append one page's item rows to the rows so far, nothing else |
| ThreadRows.ItemsRowsLength | app3.py:43-62 | the number of rows of a run of items is the sum of 1 + number of replies over those items |
| ThreadRows.ItemRowsShape | app3.py:44-62 | an item gives its top-level row first, carrying `totalReplyCount`, then one row per reply, each with reply count 0 |
| ThreadRows.ItemRowsInPlace | app3.py:43-62 | each item's rows sit contiguously between the rows of the items before and after it, so a top-level row is immediately followed by its own replies |
| ThreadRows.PagesRowsFlatten | app3.py:34-66 | the rows of a page sequence are the rows of all its items in page-then-item order |
| ThreadRows.NoRepliesOneRowEach | app3.py:53-62 | without replies, each item gives exactly one row |
| MessageRows.GetVideoComments | app.py:15-42 | the loop returns exactly one row per top-level item of the fetched pages, in order, copying author, text and publish time into `author`, `message` and `timestamp` |
| MessageRows.MessagesAt | app.py:30-36 | over all pages, row i is built from item i of the flattened item sequence |
| VideoUrl.VideoId | app.py:50 | `video_url.split('v=')[1]`, with `IndexError` when the split has one piece; `VideoUrl.VideoIdSpec` states what it returns |
| VideoUrl.VideoIdSpec | app.py:50 | extraction fails iff the URL has no `v=`; otherwise the id is the text after the first `v=` up to the next `v=` or the end of the URL, and contains no `v=` |
| VideoUrl.WatchUrl | app3.py:129 | for a URL built as prefix + `v=` + id with no other `v=` and no occurrence straddling the junction, the id comes back |
| Strings.JoinSplit | app.py:50 | joining the pieces of `split(sep)` with `sep` gives back the string |
| Strings.SplitPiecesFree | app.py:50 | no piece of `split(sep)` contains the separator |
| TextCleaner.CleanText | app3.py:70-82 | `clean_text` as the chain unescape, tag removal, URL removal, symbol removal, digit removal, whitespace collapse and strip; the lemmas below state what the chain promises |
| TextCleaner.StripTagsNoTags | app3.py:74 | after removing `<[^>]+>` no tag match is left |
| TextCleaner.StripTagsNoOpen | app3.py:74 | text without `<` is unchanged by tag removal |
| TextCleaner.StripUrlsNoUrls | app3.py:76 | after removing `https?://\S+|www\.\S+` no URL match is left |
| TextCleaner.StripUrlsNoDots | app3.py:76 | text without `.` and `:` is unchanged by URL removal |
| TextCleaner.CollapseSpacesSingle | app3.py:81 | text whose only whitespace is isolated single spaces is unchanged by collapsing |
| TextCleaner.CleanTextShape | app3.py:70-82 | the cleaned text has no digit, only word characters and single spaces, no leading or trailing space and no two consecutive spaces |
| TextCleaner.CleanShapeFixed | app3.py:70-82 | text already of that shape and without `&` is a fixed point of the cleaner |
| TextCleaner.CleanTextIdempotent | app3.py:70-82 | cleaning twice equals cleaning once, given an unescape that leaves `&`-free text alone |
| TextCleaner.StripUrlsMembers | app3.py:76 | URL removal only deletes characters: every character of the output is one of the input |
| TextCleaner.CleanTextFrom | app3.py:70-82 | every character of the cleaned text is a space or a non-space character of the unescaped input |
| TextCleaner.NoWordLeftCleansEmpty | app3.py:70-82 | text with no word character left once its tags and URLs are removed (markup, links or punctuation only) cleans to the empty string |
| TextCleaner.NoWordCleansEmpty | app3.py:70-82 | text whose unescaped form has no word character at all (entities or punctuation only) cleans to the empty string |
| TextCleaner.TagOnlyCleansEmpty | app3.py:74 | a lone `<br>` tag cleans to the empty string, although its tag name is made of letters |
| Keywords.CoarseClass | app3.py:95 | `split(',')[0]` is the part-of-speech string up to its first comma, or all of it when it has no comma |
| Keywords.FilterWords | app3.py:93-98 | the for loop appends exactly the kept words, in token order |
| Keywords.KeptWordsMembers | app3.py:93-98 | a word is kept iff some token is a noun, verb or adjective whose lowered base form is the word, is longer than one character and is no stop-word |
| Keywords.KeptWordsQualify | app3.py:91-98 | every kept word is longer than one character, not a stop-word, and the lowered base form of a content-word token |
| Keywords.KeptWordsAppend | app3.py:94-98 | filtering distributes over concatenation of token streams, so kept words keep their token order |
| Keywords.Bigrams | app3.py:103 | no bigrams below two words, and at most len(words) − 1 of them |
| Keywords.BigramsMembers | app3.py:103 | `b` is a bigram iff it is `w[i] + " " + w[i+1]` for adjacent distinct words |
| Keywords.BigramsHaveSpace | app3.py:103 | every bigram contains a space |
| Keywords.UnigramTotal | app3.py:101 | unigram counts sum to the number of kept words |
| Keywords.KeywordCounts | app3.py:101-108 | `(Counter(words) + Counter(bigrams)).most_common(n)`; `Keywords.KeywordCountsSpec` and `Keywords.KeywordCountsExact` state its promises |
| Keywords.KeywordCountsSpec | app3.py:101-108 | `min(n, distinct words and bigrams)` keywords, counts non-increasing, and no word or bigram left out occurs more often than a listed keyword |
| Keywords.KeywordCountsExact | app3.py:101-108 | each listed count is positive and equals occurrences as a unigram plus occurrences as a bigram |
| Keywords.CombinedCounts | app3.py:101-107 | the Counter sum has distinct keys and positive counts, its keys are exactly the kept words and bigrams, and each count is occurrences as a word plus as a bigram |
| Keywords.CombinedOrder | app3.py:107 | when no word contains a space, the Counter sum is the unigram counter followed by the bigram counter, so ties go unigrams first, then bigrams, each in first-occurrence order |
| Keywords.ExtractKeywords | app3.py:85-108 | the method returns the model of cleaning, filtering, counting and `most_common(n)` |
| Keywords.TextKeywords | app3.py:85-108 | `extract_keywords(text, n)` as a value; `Keywords.ExtractKeywords` computes it and `Keywords.TextKeywordsSpec` states its promises |
| Keywords.TextKeywordsSpec | app3.py:85-108 | a comment's keywords: `min(n, distinct kept words and bigrams)` of them, non-increasing, each with its exact positive count, none left out occurring more often than one listed |
| Counters.CountAll | app3.py:101 | `Counter(iterable)` in insertion order; `Counters.CountAllGet`, `CountAllKeys` and `CountAllSum` state its promises |
| Counters.CountAllGet | app3.py:101 | `Counter(xs)[k]` is the number of occurrences of k in xs |
| Counters.CountAllKeys | app3.py:101 | the counter has distinct keys, positive counts, keys in first-occurrence order |
| Counters.CountAllSum | app3.py:101 | the counts sum to the length of the input |
| Counters.FromPairs | app3.py:299 | `dict(pairs)` in insertion order, the last value of a key winning; `Counters.FromPairsKeys` and `FromPairsLastWins` state its promises |
| Counters.FromPairsKeys | app3.py:299 | `dict(pairs)` has distinct keys, in first-occurrence order |
| Counters.FromPairsLastWins | app3.py:299 | the value kept for a key is the one of its last pair |
| Counters.FromPairsLosesRepeats | app3.py:299 | with positive counts, a repeated key keeps less than the sum of its pairs |
| Counters.FromPairsMissing | app3.py:299 | a key no pair carries is absent from `dict(pairs)`, so its count is 0 |
| Counters.FromPairsDistinct | app3.py:299 | when each key occurs in one pair only, `dict(pairs)` keeps each count whole, equal to the sum of its pairs |
| Counters.Add | app3.py:107 | `Counter + Counter`: left's keys in order, then right's new keys, dropping non-positive sums; `Counters.GetAdd` and `AddSpec` state its promises |
| Counters.GetAdd | app3.py:107 | `(a + b)[k] == a[k] + b[k]` for counters with positive counts |
| Counters.AddSpec | app3.py:107 | the sum again has distinct keys and positive counts, and adds pointwise |
| Counters.AddDisjoint | app3.py:107 | counters with disjoint keys add by concatenation, keeping left's order then right's |
| Counters.MostCommon | app3.py:108 | `most_common(n)` as a stable descending sort by count followed by a take; `Counters.MostCommonSpec`, `MostCommonLeftOut` and `MostCommonTies` state its promises |
| Counters.MostCommonSpec | app3.py:108 | `most_common(n)` takes min(n, size) entries of the counter, counts non-increasing |
| Counters.MostCommonLeftOut | app3.py:108 | no entry left out has a higher count than a listed one |
| Counters.MostCommonTies | app3.py:108 | among equal counts the earliest-inserted entries are listed, in insertion order |
| Counters.MostCommonOfCounts | app.py:73 | ranking a `Counter(xs)` lists min(n, distinct values) entries, each a value of xs with its exact count |
| Counters.MostCommonOfCountsRank | app.py:73 | ranking a `Counter(xs)` lists `min(n, distinct values)` entries, and no value left out occurs more often than a listed one |
| Counters.MostCommonSize | app3.py:108 | with distinct keys, `most_common(n)` returns `min(n, number of keys)` entries |
| Counters.MostCommonLeftOutKeys | app3.py:108 | no key left out by `most_common(n)` has a larger count than a listed entry |
| Counters.KeysPositive | app3.py:107 | in a Counter with distinct keys and positive counts, a key is present iff its count is positive |
| Tables.ColumnCount | app3.py:243 | a value occurs in a column (`df['author']`) as often as there are rows carrying it, which is what `value_counts` counts |
| Ranking.TopNSpec | app3.py:255 | top-N selection has min(N, size) elements taken from the input, keys non-increasing |
| Ranking.TopNLeftOut | app3.py:255 | no element left out has a larger key than a selected one |
| Ranking.TopNStable | app3.py:255 | among equal keys the earliest elements are selected, in input order |
| Ranking.SortDescSpec | app3.py:108 | the stable sort is a permutation, non-increasing, and keeps equal keys in input order |
| CommentAnalysis.MostLiked | app3.py:255 | `df.nlargest(TOP_N, 'likes')` with `keep='first'`; `CommentAnalysis.MostLikedSpec` states its promises |
| CommentAnalysis.MostLikedSpec | app3.py:255 | the most-liked table has min(10, rows) rows taken from the table, non-increasing likes, nothing left out liked more |
| CommentAnalysis.MostReplied | app3.py:277 | `df.nlargest(TOP_N, 'reply_count')` with `keep='first'`; `CommentAnalysis.MostRepliedSpec` states its promises |
| CommentAnalysis.MostRepliedSpec | app3.py:277 | the most-replied table has min(10, rows) rows, non-increasing reply counts, nothing left out replied more |
| CommentAnalysis.TopCommenters | app3.py:243 | `df['author'].value_counts().head(TOP_N)`; `CommentAnalysis.TopCommentersSpec` states its promises |
| CommentAnalysis.TopCommentersSpec | app3.py:243 | `min(10, distinct authors)` authors, non-increasing, each count the author's exact number of rows and positive, and no author left out wrote more rows than a listed one |
| CommentAnalysis.KeywordAnalysis | app3.py:288-299 | the two loops and the merge produce `dict(all per-comment keyword pairs)` ranked to the top 20 |
| CommentAnalysis.CollectKeywords | app3.py:288-290 | the first loop concatenates each comment's keyword list in row order |
| CommentAnalysis.ProcessKeywords | app3.py:292-297 | the second loop copies the pairs unchanged, since keywords are always strings |
| CommentAnalysis.AllKeywordsPositive | app3.py:288-290 | every collected per-comment count is positive |
| CommentAnalysis.MergedKeywords | app3.py:299 | `Counter(dict(processed_keywords)).most_common(KEYWORD_TOP_N)`; `CommentAnalysis.MergedKeywordsSpec` states its promises |
| CommentAnalysis.MergedKeywordsSpec | app3.py:299 | `min(20, distinct keywords)` keywords, non-increasing, each entry the last pair collected for its keyword, and no keyword left out kept a larger count than a listed one |
| CommentAnalysis.MergeKeepsLast | app3.py:288-299 | a keyword listed for two comments gets its last count, strictly less than the sum of its counts |
| Dashboard.AnalyzeComments | app3.py:194-211 | given the rows, the run produces the row count, distinct-author count, top commenters, most-liked and most-replied tables and the merged keyword table of those rows |
| Dashboard.AnalyzeVideo | app3.py:125-146 | a URL without `v=` gives `IndexError`; no comment rows gives `KeyError`; otherwise the analysis of the fetched rows |
| Dashboard.AnalysisCounts | app3.py:220-221 | the total is the number of rows and the unique-commenter figure the number of distinct authors |
| VideoAnalyzer.Analyze | app.py:49-84 | a URL without `v=` fails; otherwise the report of the fetched messages |
| VideoAnalyzer.ReportOf | app.py:62-84 | the "no comments" branch, or `comments[:10]` and `df['author'].value_counts().head(10)`; `VideoAnalyzer.ReportSpec` states its promises |
| VideoAnalyzer.ReportSpec | app.py:62-84 | "no comments" iff there are none; otherwise the first min(10, n) comments in fetch order, and `min(10, distinct authors)` authors, non-increasing, each with their exact positive count, none left out having written more than a charted one |

## Left out

- Streamlit rendering, the sidebar inputs and Plotly charts: these are presentation only. The missing-input branches (app.py:86-87, the `if api_key and video_url` guards) are not modelled.
- `googleapiclient` `build`/`execute`, and the video and channel detail fetches (`get_video_details`, `get_channel_details`, `get_video_info`): these are network I/O. The comment API is a given sequence of pages, and the page token's value is opaque. Only its presence matters.
- YouTubeApi.Fetched: requires that some page ends the walk. A source that never stops would loop forever in the original, and is outside the model.
- The Janome tokenizer, `str.lower`, `html.unescape` and Python's Unicode `\w`, `\d` and `\s`: these are foreign library semantics and are parameters. TextCleaner.CleanTextShape assumes only the facts in `TextCleaner.Consistent`.
- TextCleaner.CleanTextIdempotent: also assumes the unescape parameter leaves `&`-free text unchanged, which `html.unescape` does. Nothing stronger about entity decoding is modelled.
- pandas datetime parsing, the daily `resample`, the mean of likes, the comment-length histogram, and the description's `[:500]` slice: these depend on dates or floating point, or are display-only.
- The generic `except Exception` handler (app3.py:142-146): modelled only through the two exceptions the core itself raises. These are `IndexError` for a URL without `v=` and `KeyError` for an empty comment table. API failures are not modelled.
- The tuple branch at app3.py:294-295: it is dead because keywords are always strings. CommentAnalysis.ProcessKeywords copies the pairs.
- pandas tie order: `nlargest(keep='first')` and `value_counts()` are taken to keep first-occurrence order among equal values.
- Counters: the model handles only the non-negative counts the program creates. `Counter + Counter` drops non-positive sums, which the model also does, but no theorem covers negative inputs.
