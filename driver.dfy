/**
 * The driver `main`: split the global budget evenly over the subreddits,
 * collect each subreddit in turn with what is left of the budget, cut the
 * total at the global maximum, and hand the rows that pass the final filter
 * to the CSV writer, unless nothing was collected.
 */
module Driver {
  import opened Wrappers
  import opened Values
  import opened Collector

  /** The subreddits polled, in order. */
  const Subreddits: seq<string> := [
    "AskReddit",
    "offmychest",
    "explainlikeimfive",
    "relationships",
    "relationship_advice",
    "AmItheAsshole",
    "personalfinance",
    "legaladvice",
    "AskScience",
    "AskHistorians"
  ]

  /** The global maximum number of rows. */
  const MaxTotalPosts: nat := 10000

  function Min(a: int, b: int): (m: int)
    ensures m <= a && m <= b && (m == a || m == b)
  {
    if a < b then a else b
  }

  /** `math.ceil(total / count)`: the least quota that, given to every source, covers the total. */
  function EvenQuota(total: nat, count: nat): (q: nat)
    requires count > 0
    ensures q * count >= total
    ensures q == 0 || (q - 1) * count < total
  {
    var m := total + count - 1;
    var q := m / count;
    assert m == q * count + m % count && 0 <= m % count < count;
    assert q * count >= total;
    assert q > 0 ==> (q - 1) * count < total by {
      assert (q - 1) * count == q * count - count;
    }
    q
  }

  /** With the source's constants each subreddit's quota is 1000 rows. */
  lemma QuotaOfConstants()
    ensures EvenQuota(MaxTotalPosts, |Subreddits|) == 1000
  {
  }

  /** The rows of a sequence of per-source results, in source order. */
  function Flatten(results: seq<seq<Row>>): seq<Row>
    decreases |results|
  {
    if results == [] then [] else Flatten(results[..|results| - 1]) + results[|results| - 1]
  }

  /** The rows already collected when source `i` is reached. */
  function Before(results: seq<seq<Row>>, i: nat): seq<Row>
    requires i <= |results|
  {
    Flatten(results[..i])
  }

  /** The limit the driver passes for source `i`: the even quota, or what is left of the budget if less. */
  function LimitFor(sources: seq<string>, maxTotal: nat, results: seq<seq<Row>>, i: nat): int
    requires |sources| > 0 && i <= |results|
  {
    Min(EvenQuota(maxTotal, |sources|), maxTotal - |Before(results, i)|)
  }

  /**
   * `results` are the per-source results of the first `|results|` steps of
   * the driver loop: each source was processed only while the budget was not
   * used up, and got from the collector what its limit allowed.
   */
  ghost predicate DrivenSoFar(sources: seq<string>, maxTotal: nat, listing: string -> seq<Response>,
                              cutoff: real, results: seq<seq<Row>>)
    requires |sources| > 0
  {
    |results| <= |sources|
    && (forall i :: 0 <= i < |results| ==> |Before(results, i)| < maxTotal)
    && (forall i :: 0 <= i < |results| ==>
          results[i] == Expected(listing(sources[i]), LimitFor(sources, maxTotal, results, i), cutoff))
  }

  /** The whole driver loop: as above, and it ended early only because the budget was used up. */
  ghost predicate Driven(sources: seq<string>, maxTotal: nat, listing: string -> seq<Response>,
                         cutoff: real, results: seq<seq<Row>>)
    requires |sources| > 0
  {
    DrivenSoFar(sources, maxTotal, listing, cutoff, results)
    && (|results| < |sources| ==> |Flatten(results)| >= maxTotal)
  }

  lemma FlattenSnoc(results: seq<seq<Row>>, r: seq<Row>)
    ensures Flatten(results + [r]) == Flatten(results) + r
    ensures (results + [r])[..|results|] == results
  {
    assert (results + [r])[..|results + [r]| - 1] == results;
  }

  /** Appending a result does not change what came before it. */
  lemma BeforeSnoc(results: seq<seq<Row>>, r: seq<Row>, i: nat)
    requires i <= |results|
    ensures Before(results + [r], i) == Before(results, i)
  {
    assert (results + [r])[..i] == results[..i];
  }

  /** One step of the driver loop: the next source, collected with the limit the budget allows. */
  lemma DrivenStep(sources: seq<string>, maxTotal: nat, listing: string -> seq<Response>,
                   cutoff: real, results: seq<seq<Row>>, posts: seq<Row>)
    requires |sources| > 0 && DrivenSoFar(sources, maxTotal, listing, cutoff, results)
    requires |results| < |sources| && |Flatten(results)| < maxTotal
    requires posts == Expected(listing(sources[|results|]), LimitFor(sources, maxTotal, results, |results|), cutoff)
    ensures DrivenSoFar(sources, maxTotal, listing, cutoff, results + [posts])
    ensures Flatten(results + [posts]) == Flatten(results) + posts
  {
    var next := results + [posts];
    FlattenSnoc(results, posts);
    assert results[..|results|] == results;
    forall i | 0 <= i < |next|
      ensures |Before(next, i)| < maxTotal
      ensures next[i] == Expected(listing(sources[i]), LimitFor(sources, maxTotal, next, i), cutoff)
    {
      BeforeSnoc(results, posts, i);
      assert LimitFor(sources, maxTotal, next, i) == LimitFor(sources, maxTotal, results, i);
      if i < |results| {
        assert next[i] == results[i];
      } else {
        assert next[i] == posts && Before(next, i) == Flatten(results);
      }
    }
  }

  /**
   * The driver never overshoots the global maximum: every source's limit is
   * at most the remaining budget, so the truncation in `main` never cuts.
   */
  lemma {:induction false} DrivenBounded(sources: seq<string>, maxTotal: nat, listing: string -> seq<Response>,
                                         cutoff: real, results: seq<seq<Row>>)
    requires |sources| > 0 && Driven(sources, maxTotal, listing, cutoff, results)
    ensures |Flatten(results)| <= maxTotal
  {
    var n := |results|;
    var i := 0;
    while i < n
      invariant 0 <= i <= n
      invariant |Before(results, i)| <= maxTotal
    {
      WithinBudget(sources, maxTotal, listing, cutoff, results, i);
      BeforeNext(results, i);
      i := i + 1;
    }
    assert results[..n] == results;
  }

  /** Source `i` adds no more rows than the budget it was given leaves room for. */
  lemma WithinBudget(sources: seq<string>, maxTotal: nat, listing: string -> seq<Response>,
                     cutoff: real, results: seq<seq<Row>>, i: nat)
    requires |sources| > 0 && DrivenSoFar(sources, maxTotal, listing, cutoff, results) && i < |results|
    ensures |Before(results, i)| + |results[i]| <= maxTotal
  {
    ExpectedBounded(listing(sources[i]), LimitFor(sources, maxTotal, results, i), cutoff);
  }

  lemma BeforeNext(results: seq<seq<Row>>, i: nat)
    requires i < |results|
    ensures Before(results, i + 1) == Before(results, i) + results[i]
  {
    assert results[..i + 1] == results[..i] + [results[i]];
    FlattenSnoc(results[..i], results[i]);
  }

  /** Every row the driver collects is a safe row. */
  lemma {:induction false} FlattenSafe(results: seq<seq<Row>>, cutoff: real)
    requires forall i :: 0 <= i < |results| ==> forall r :: r in results[i] ==> Safe(r, cutoff)
    ensures forall r :: r in Flatten(results) ==> Safe(r, cutoff)
    decreases |results|
  {
    if results != [] {
      FlattenSafe(results[..|results| - 1], cutoff);
    }
  }

  /**
   * The `for sub in SUBREDDITS` loop and the truncation that follows it.
   * Returns the collected rows and the per-source results they came from.
   */
  method CollectAll(sources: seq<string>, maxTotal: nat, listing: string -> seq<Response>, cutoff: real)
    returns (allPosts: seq<Row>, results: seq<seq<Row>>)
    requires |sources| > 0
    ensures Driven(sources, maxTotal, listing, cutoff, results)
    ensures allPosts <= Flatten(results)
    ensures |allPosts| == Min(|Flatten(results)|, maxTotal)
  {
    var maxPerSub := EvenQuota(maxTotal, |sources|);
    allPosts := [];
    results := [];
    var j := 0;
    while j < |sources|
      invariant j == |results|
      invariant allPosts == Flatten(results)
      invariant DrivenSoFar(sources, maxTotal, listing, cutoff, results)
    {
      if |allPosts| >= maxTotal {
        break;
      }
      var remaining := maxTotal - |allPosts|;
      var perSubLimit := Min(maxPerSub, remaining);
      assert results[..j] == results;
      var posts, _ := FetchSubredditPosts(listing(sources[j]), perSubLimit, cutoff);
      DrivenStep(sources, maxTotal, listing, cutoff, results, posts);
      allPosts := allPosts + posts;
      results := results + [posts];
      j := j + 1;
    }
    if |allPosts| > maxTotal {
      allPosts := allPosts[..maxTotal];
    }
  }

  /** The final filter `(over_18 == False) & (is_self == True)`. */
  predicate Writable(r: Row)
  {
    EqualsFalse(r.over18) && EqualsTrue(r.isSelf)
  }

  /** The rows that pass the final filter, in their original order. */
  function FinalFilter(rows: seq<Row>): (kept: seq<Row>)
    ensures forall r :: r in kept ==> r in rows && Writable(r)
    ensures forall r :: r in rows && Writable(r) ==> r in kept
    ensures |kept| <= |rows|
    decreases |rows|
  {
    if rows == [] then []
    else
      var init := FinalFilter(rows[..|rows| - 1]);
      var last := rows[|rows| - 1];
      assert forall r :: r in rows ==> r in rows[..|rows| - 1] || r == last;
      if Writable(last) then init + [last] else init
  }

  /** The final filter distributes over concatenation: it keeps the rows' order. */
  lemma {:induction false} FinalFilterAppend(a: seq<Row>, b: seq<Row>)
    ensures FinalFilter(a + b) == FinalFilter(a) + FinalFilter(b)
    decreases |b|
  {
    if b == [] {
      assert a + b == a;
    } else {
      var b' := b[..|b| - 1];
      assert (a + b)[..|a + b| - 1] == a + b';
      assert (a + b)[|a + b| - 1] == b[|b| - 1];
      FinalFilterAppend(a, b');
    }
  }

  /** Rows whose flags are genuine booleans pass the final filter exactly when they are safe. */
  lemma {:induction false} FinalFilterOnBooleans(rows: seq<Row>, cutoff: real)
    requires forall r :: r in rows ==> r.over18.Bool? && r.isSelf.Bool? && Safe(r, cutoff)
    ensures FinalFilter(rows) == rows
    decreases |rows|
  {
    if rows != [] {
      FinalFilterOnBooleans(rows[..|rows| - 1], cutoff);
      assert rows[..|rows| - 1] + [rows[|rows| - 1]] == rows;
    }
  }

  /**
   * The final filter is not redundant: an item whose `is_self` is the
   * number 2 passes the collector's truthiness check, but not `== True`.
   */
  lemma FinalFilterNotRedundant(cutoff: real)
    ensures var p := Item(Str("abc"), Num(2.0), Bool(false), Bool(false), Num(cutoff), Num(1.0), Num(1.0));
      Rows([p], cutoff) == [ToRow(p)] && FinalFilter(Rows([p], cutoff)) == []
  {
    var p := Item(Str("abc"), Num(2.0), Bool(false), Bool(false), Num(cutoff), Num(1.0), Num(1.0));
    assert [p][..0] == [];
  }

  /**
   * The sample listing end to end: one source, a global maximum of 5, and
   * the sample page.  The driver runs that source with limit 5, collects
   * the three eligible posts, and all three are written.
   */
  lemma SampleRun(results: seq<seq<Row>>)
    requires Driven(["s"], 5, (_: string) => SamplePages, 100.0, results)
    ensures results == [[ToRow(PostA), ToRow(PostB), ToRow(PostC)]]
    ensures FinalFilter(Flatten(results)) == Flatten(results) == results[0]
  {
    SampleDriven(results);
    ThreeEligibleOfFive();
    SampleWritable(results[0]);
    FlattenOne(results[0]);
  }

  /** A single result flattens to itself. */
  lemma FlattenOne(r: seq<Row>)
    ensures Flatten([r]) == r
  {
    FlattenSnoc([], r);
    assert [] + [r] == [r];
  }

  /** The run of the sample listing exists: collecting with limit 5 is what the driver does. */
  lemma SampleRunExists()
    ensures Driven(["s"], 5, (_: string) => SamplePages, 100.0, [Expected(SamplePages, 5, 100.0)])
  {
    var results := [Expected(SamplePages, 5, 100.0)];
    assert results[..0] == [];
    assert LimitFor(["s"], 5, results, 0) == 5;
    ThreeEligibleOfFive();
  }

  /** With one source and a global maximum of 5, the source is run once, with limit 5. */
  lemma SampleDriven(results: seq<seq<Row>>)
    requires Driven(["s"], 5, (_: string) => SamplePages, 100.0, results)
    ensures results == [Expected(SamplePages, 5, 100.0)]
  {
    assert |results| == 1;
    assert results[..0] == [];
    assert LimitFor(["s"], 5, results, 0) == 5;
  }

  /** The sample rows have boolean flags and are safe, so the final filter keeps them. */
  lemma SampleWritable(rows: seq<Row>)
    requires rows == [ToRow(PostA), ToRow(PostB), ToRow(PostC)]
    ensures FinalFilter(rows) == rows
  {
    ExpectedBounded(SamplePages, 5, 100.0);
    ThreeEligibleOfFive();
    assert forall r :: r in rows ==> r.over18.Bool? && r.isSelf.Bool?;
    FinalFilterOnBooleans(rows, 100.0);
  }

  /**
   * `main`, given each subreddit's listing and the age cutoff.  `allPosts`
   * is the total collected; `written` is `None` when nothing was collected
   * (no file is written) and otherwise the rows written to the CSV file.
   */
  method Scrape(listing: string -> seq<Response>, minCreatedUtc: real)
    returns (allPosts: seq<Row>, written: Option<seq<Row>>)
    ensures exists results :: Driven(Subreddits, MaxTotalPosts, listing, minCreatedUtc, results)
                              && allPosts == Flatten(results)
    ensures |allPosts| <= MaxTotalPosts
    ensures forall r :: r in allPosts ==> Safe(r, minCreatedUtc)
    ensures written.None? <==> allPosts == []
    ensures written.Some? ==> written.value == FinalFilter(allPosts)
  {
    var results;
    allPosts, results := CollectAll(Subreddits, MaxTotalPosts, listing, minCreatedUtc);
    DrivenBounded(Subreddits, MaxTotalPosts, listing, minCreatedUtc, results);
    assert allPosts == Flatten(results)[..|allPosts|] && |allPosts| == |Flatten(results)|;
    assert allPosts == Flatten(results);
    forall i | 0 <= i < |results|
      ensures forall r :: r in results[i] ==> Safe(r, minCreatedUtc)
    {
      ExpectedBounded(listing(Subreddits[i]), LimitFor(Subreddits, MaxTotalPosts, results, i), minCreatedUtc);
    }
    FlattenSafe(results, minCreatedUtc);
    if allPosts == [] {
      written := None;
      return;
    }
    written := Some(FinalFilter(allPosts));
  }
}
