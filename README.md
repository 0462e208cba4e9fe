# Reddit text-post scraper, modelled in Dafny

`scraper.py` builds a dataset of text posts from ten subreddits. For each subreddit in
turn, `fetch_subreddit_posts` pages through the subreddit's "top of the year" listing
with the `after` cursor. It keeps the items that are self posts, are not marked adult
at item or subreddit level, and have a numeric `created_utc` no newer than the age
cutoff. It turns each kept item into a row and attaches an up/down vote estimate
computed by `approx_votes`. It stops on a failed request, an empty page, a page without
a cursor, or the per-subreddit limit, even part-way through a page. `main` gives each
subreddit the limit `min(ceil(MAX_TOTAL_POSTS / len(SUBREDDITS)), MAX_TOTAL_POSTS -
len(all_posts))`. It stops once the global budget is used up, truncates the total to
`MAX_TOTAL_POSTS`, and returns without writing anything if no rows were collected.
Otherwise it writes the rows with `over_18 == False` and `is_self == True` to a CSV
file.

The model has four modules:

- `Values` holds the JSON field values an item can carry (`Absent` for a missing key,
  `Null`, booleans, numbers as reals, strings). It defines the Python operations the
  script applies to them: `dict.get` with a default, truthiness,
  `isinstance(x, (int, float))` (booleans count as numbers), and `== True` /
  `== False`.
- `Votes` holds `approx_votes` over exact reals, with the rounding of Python's `round`
  (ties to even).
- `Collector` holds `fetch_subreddit_posts`. The network is a sequence of responses:
  the i-th request is answered by the i-th response. `FetchSubredditPosts` is the loop
  itself. It is proved equal to a declarative specification: the rows of the eligible
  items that the listing serves before it ends (`Served`), cut at the limit
  (`Expected`), plus the reason the loop ended (`ExpectedStop`). The nested
  `for child in children` loop is the method `CollectPage`.
- `Driver` holds `main`. The listing of every subreddit is a parameter (a function from
  subreddit name to its responses). `CollectAll` is the loop over the subreddits
  followed by the truncation, and `Scrape` adds the empty check and the final filter.
  The ghost predicate `Driven` describes the per-source results declaratively: the
  limit each source received, and that sources are processed only while the budget
  lasts.

Some behaviour of the code is worth knowing. The model follows the code on each point.

- A first page that has children but no `after` cursor is still processed. The cursor
  is tested only after the page's items (scraper.py:87-139), so that page's eligible
  items are collected (`Collector.FirstPageWithoutCursor`).
- The age check skips an item only when `created_utc > min_created_utc`. A post
  created exactly at the cutoff is kept.
- The final filter compares with `== False` and `== True`, while collection uses
  truthiness. The two agree on genuine booleans (`Driver.FinalFilterOnBooleans`). They
  disagree on values such as `is_self = 2` or `over_18 = null`, which are collected and
  then dropped (`Driver.FinalFilterNotRedundant`).
- The truncation at scraper.py:170-171 never cuts anything. Each source's limit is at
  most the remaining budget (`Driver.DrivenBounded`).
- If rows were collected but none passes the final filter, a CSV file with no data
  rows is still written (`written == Some([])`).

## Model

| member | source | states |
|---|---|---|
| `Values.EqualityImpliesTruthiness` | scraper.py:181 | a value that is `== True` is truthy and a value that is `== False` is falsy, so the final filter is at least as strict as the collection checks |
| `Values.BooleansAgree` | scraper.py:181 | on booleans, `== True` / `== False` coincide with truthiness / falsiness |
| `Votes.RoundHalfEven` | scraper.py:50-51 | the rounded value is within one half of its argument, and is even when the argument lies exactly halfway between two integers |
| `Votes.ApproxVotes` | scraper.py:32-52 | an estimate is given only when both inputs are present and `0 < r < 1`, and both its counts are non-negative; a ratio of exactly one half gives none. Its guards are characterised in full by EstimateDefined and its result by EstimateClose |
| `Votes.EstimateDefined` | scraper.py:32-45 | an estimate exists if and only if score and ratio are present, `0 < r < 1`, `abs(2r - 1) >= 1e-6` and the score has the sign of `2r - 1` (that is, `n > 0`) |
| `Votes.DegenerateRatios` | scraper.py:36-37 | ratios 0.5, 0 and 1 give no estimate, whatever the score |
| `Votes.EstimateIsSplit` | scraper.py:39-51 | an estimate splits a total `n > 0` with `(2r - 1) * n == score` by the ratio `r`, with `0 < r < 1` |
| `Votes.SplitClose` | scraper.py:47-51 | splitting `n > 0` votes by `0 < r < 1` gives non-negative counts whose difference is within 1 of `(2r - 1) * n` and whose sum is within 1 of `n` |
| `Votes.SplitConsistent` | scraper.py:44-52 | with EstimateIsSplit: both estimated counts are non-negative, `up - down` is within 1 of the score and `up + down` within 1 of the total `n` |
| `Votes.EstimateClose` | scraper.py:32-52 | whenever an estimate is given, both counts are non-negative, `up - down` is within 1 of the score, and `up + down` is within 1 of `score / (2r - 1)` |
| `Votes.EstimateExample` | scraper.py:39-52 | score 100 at ratio 0.75 gives 150 upvotes and 50 downvotes |
| `Collector.Eligible` | scraper.py:90-101 | no contract of its own: the four `continue` checks (a truthy `is_self` read with default `False`, neither adult flag truthy, a numeric `created_utc`, not newer than the cutoff); characterised by RowsMembership and RowsPicked, and shown to imply row safety by EligibleRowSafe |
| `Collector.ToRow` | scraper.py:103-127 | no contract of its own: the row dict with the `get` defaults of the source (`score` 0, `upvote_ratio` and `id` None, the flags `False`) and the estimate from `approx_votes`; EligibleRowSafe states what the row of an eligible item satisfies |
| `Collector.RowsAppend` | scraper.py:87-129 | filtering the items of two runs of pages one after the other gives the rows of the first run followed by those of the second: order is kept |
| `Collector.RowsMembership` | scraper.py:87-129 | a row is collected if and only if it is the row of some eligible item |
| `Collector.RowsLength` | scraper.py:87-129 | there are never more rows than items |
| `Collector.RowsPicked` | scraper.py:87-129 | the j-th row is the row of the item at the j-th eligible position; these positions strictly increase and include every eligible position, so each eligible item gives exactly one row, in listing order, and nothing is duplicated or reordered |
| `Collector.EmptyItemSkipped` | scraper.py:88-91 | an item whose `data` object is missing reads as `{}` and is skipped, because `is_self` defaults to `False` |
| `Collector.RowsSafe` | scraper.py:90-101 | every row of the eligible items has a truthy `is_self`, a falsy `over_18` and a numeric `created_utc` that is at most the cutoff |
| `Collector.EligibleRowSafe` | scraper.py:90-126 | the row built from an item that passes the four checks satisfies those row-level conditions |
| `Collector.ExpectedBounded` | scraper.py:60-132 | the rows collected for a subreddit never exceed `max(0, max_posts_per_sub)` and are all safe |
| `Collector.ExpectedMonotone` | scraper.py:129-132 | the rows collected under a smaller limit are a prefix of those collected under a larger one |
| `Collector.FirstPageWithoutCursor` | scraper.py:81-139 | a first page with children and a falsy `after` yields its eligible items up to the limit, and ends with "end of listing" |
| `Collector.FirstPageUnusable` | scraper.py:69-85 | a failed first request, a non-200 status or an empty first page yields no rows and ends with "request failed" or "no more posts" |
| `Collector.ThreeEligibleOfFive` | scraper.py:87-139 | one page of three eligible and two adult posts with no cursor, at limit 5, yields exactly the three eligible rows in order, and the listing has ended |
| `Collector.CollectPage` | scraper.py:87-132 | the page loop appends the rows of the page's eligible items to those collected, stopping at the limit |
| `Collector.FetchSubredditPosts` | scraper.py:55-142 | the rows are exactly the eligible served items in listing order, cut at the limit; the stop reason is the limit when it is reached on a page that has a cursor, that is, before the page that ends the listing; otherwise it is how the listing ended; at most the limit; every row safe |
| `Driver.EvenQuota` | scraper.py:150 | the quota is the least `q` with `q * len(SUBREDDITS) >= MAX_TOTAL_POSTS` |
| `Driver.QuotaOfConstants` | scraper.py:7-20 | with ten subreddits and 10000 posts the quota is 1000 |
| `Driver.DrivenStep` | scraper.py:155-168 | processing the next source with `min(quota, remaining)` while the budget lasts extends the per-source results and their concatenation |
| `Driver.WithinBudget` | scraper.py:159-168 | each source adds no more rows than the budget left when it started |
| `Driver.DrivenBounded` | scraper.py:159-171 | the concatenation of the per-source results never exceeds `MAX_TOTAL_POSTS` |
| `Driver.FlattenSafe` | scraper.py:155-168 | every row of the concatenated per-source results is safe |
| `Driver.CollectAll` | scraper.py:150-171 | per source in order, the limit passed is `min(quota, MAX_TOTAL_POSTS - len(all_posts))`; sources are processed only while the budget is not used up, and the loop stops early only when it is; the result is a prefix of the concatenated per-source results, of length `min(total, MAX_TOTAL_POSTS)` |
| `Driver.Writable` | scraper.py:181 | no contract of its own: `over_18 == False` and `is_self == True` under Python's `==`; EqualityImpliesTruthiness and BooleansAgree relate it to the collector's truthiness checks |
| `Driver.FinalFilter` | scraper.py:181 | the rows kept are exactly the rows with `over_18 == False` and `is_self == True` |
| `Driver.FinalFilterAppend` | scraper.py:181 | the final filter keeps the original order of the rows |
| `Driver.FinalFilterOnBooleans` | scraper.py:181 | on collected rows whose flags are genuine booleans, the final filter removes nothing |
| `Driver.FinalFilterNotRedundant` | scraper.py:181 | an item with `is_self = 2` is collected, yet the final filter drops its row |
| `Driver.SampleDriven` | scraper.py:155-168 | with one source and a global maximum of 5, a run of the driver processes that source once, with limit 5 |
| `Driver.SampleRunExists` | scraper.py:155-168 | that run exists: the single source collected with limit 5 is a complete run of the driver |
| `Driver.SampleRun` | scraper.py:146-184 | on the sample page with one source and a global maximum of 5, the run collects exactly the three eligible rows, in order, and the final filter writes all three |
| `Driver.Scrape` | scraper.py:146-184 | the rows collected are the concatenated per-source results, at most `MAX_TOTAL_POSTS` of them and all safe; nothing is written if and only if none was collected; otherwise the rows written are the final-filter rows |

## Left out

- HTTP transport: the session, URL, query parameters, headers, timeout and `resp.json()` are left out. Each subreddit's listing is a fixed sequence of responses, so the cursor value sent with the next request is not modelled, only its truthiness.
- A request past the end of a given response sequence is answered as a failed request. An empty page would end collection the same way.
- Endless listings are not modelled. The response sequence is finite, so `Collector.FetchSubredditPosts` always terminates. The source loop (scraper.py:60-139) never ends on a listing that keeps serving non-empty pages with a truthy `after` but has fewer eligible items than the limit.
- Malformed responses are left out. The source raises on a body that is not a JSON object, on a `data` that is not an object, on a truthy `children` that is not a list of objects, and on a child whose `data` is present but not an object (for example `"data": null`), at the `is_self` check (scraper.py:88-90). Each of these aborts the whole run, so no CSV file is written, not even with the rows of earlier subreddits. A falsy `children` that is not a list (`null`, `false`, `0`, `""`, `{}`) does not raise: it ends collection like an empty page (scraper.py:80-85), and the model represents it as `[]`.
- Field values that are JSON arrays or objects are left out. Their truthiness depends on emptiness, and `Values.Value` has no such case.
- The rate-limit pause `time.sleep(1.0 / REQUESTS_PER_SECOND)` is left out. It has no effect on data.
- `print` logging is left out. The `Stop` result of `Collector.FetchSubredditPosts` records which exit was taken, which the source only logs.
- The cutoff computation `datetime.utcnow() - timedelta(days=MIN_AGE_DAYS)` then `.timestamp()` reads the clock, so the cutoff is a parameter. With a naive `utcnow()`, `.timestamp()` reads the value as local time, which shifts the cutoff by the machine's UTC offset.
- Collector.ToRow: the copied fields `subreddit`, `title`, `selftext`, `ups`, `downs`, `num_comments` and `permalink` are not part of a row. In the source, an eligible item whose `permalink` is present but not a string (`null`, a number or a boolean) raises a TypeError at scraper.py:124. That aborts the whole run, so no CSV file is written. The model collects the row and writes it.
- Values.Numeric: in some cases a string score or ratio makes `approx_votes` raise a TypeError, which aborts the run. This happens for a string ratio with a score that is not `None`, and for a string score whose ratio passes the guards at scraper.py:33-37. In the model these give no estimate. In every other case the source also returns `(None, None)` before it reaches the arithmetic, and the model agrees.
- Votes.ApproxVotes: arithmetic is over exact reals. Floating-point rounding error, NaN and infinities are not modelled, and neither is a NaN `created_utc` (which compares as not newer).
- Driver.EvenQuota: the source takes the ceiling of a float division. The model uses exact integer ceiling, which agrees for all values below 2^53.
- The pandas `DataFrame` and `to_csv` are left out. The rows written are returned as `written`. The filter compares each value with Python's `==`, and pandas' column type coercion is not modelled.
- The listing is a function of the subreddit name, so a subreddit listed twice would be answered the same way twice. `SUBREDDITS` has no repeats.
