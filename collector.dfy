/**
 * The per-subreddit collector `fetch_subreddit_posts`: walk the pages of
 * one subreddit's listing, keep the text posts that pass the eligibility
 * checks, and stop on a failed request, an empty page, the end of the
 * listing or the per-subreddit limit.
 *
 * The network is a sequence of responses: the i-th request of the loop is
 * answered by `pages[i]`, and a request past the end of the sequence is
 * answered by a failed request.
 */
module Collector {
  import opened Wrappers
  import opened Values
  import opened Votes

  /** The fields of a listing item's `data` object that the collector reads. */
  datatype Item = Item(
    id: Value,
    isSelf: Value,
    over18: Value,
    subredditOver18: Value,
    createdUtc: Value,
    score: Value,
    upvoteRatio: Value)

  /** An item whose `data` object is missing reads as `{}`. */
  const EmptyItem: Item := Item(Absent, Absent, Absent, Absent, Absent, Absent, Absent)

  /**
   * One response: a request that raised (connection error, timeout), or an
   * HTTP reply with its status and, when the status is 200, the listing's
   * `children` and its `after` cursor (a missing `data`, `children` or
   * `after` reads as `{}`, `[]` and `None`).
   */
  datatype Response =
    | RequestError
    | Reply(status: int, children: seq<Item>, after: Value)

  /** A collected row; the copied text fields (title, body, permalink, ...) are not modelled. */
  datatype Row = Row(
    id: Value,
    score: Value,
    upvoteRatio: Value,
    estimate: Option<Estimate>,
    createdUtc: Value,
    over18: Value,
    isSelf: Value)

  /** Why collection for one subreddit ended: which of the loop's exits was taken. */
  datatype Stop =
    | LimitReached   // the `while` guard: the limit is reached
    | RequestFailed  // a request raised, or the status was not 200
    | NoMorePosts    // a page with no children
    | EndOfListing   // a page was processed and its `after` cursor is falsy

  /**
   * The four checks an item must pass: a self post, not marked adult at item
   * or subreddit level, a numeric creation time, and not newer than the cutoff.
   */
  predicate Eligible(p: Item, cutoff: real)
  {
    Truthy(Get(p.isSelf, Bool(false)))
    && !(Truthy(p.over18) || Truthy(p.subredditOver18))
    && IsNumber(p.createdUtc)
    && !(AsReal(p.createdUtc) > cutoff)
  }

  /** The row built from an item, with the vote estimate. */
  function ToRow(p: Item): Row
  {
    var score := Get(p.score, Num(0.0));
    var ratio := Get(p.upvoteRatio, Null);
    Row(Get(p.id, Null), score, ratio, ApproxVotes(Numeric(score), Numeric(ratio)),
        p.createdUtc, Get(p.over18, Bool(false)), Get(p.isSelf, Bool(false)))
  }

  /** What every collected row satisfies. */
  predicate Safe(r: Row, cutoff: real)
  {
    Truthy(r.isSelf) && !Truthy(r.over18) && IsNumber(r.createdUtc) && AsReal(r.createdUtc) <= cutoff
  }

  /** The rows an item contributes: its row if it is eligible, none otherwise. */
  function Keep(p: Item, cutoff: real): seq<Row>
  {
    if Eligible(p, cutoff) then [ToRow(p)] else []
  }

  /** The rows of the eligible items of `items`, in order. */
  function Rows(items: seq<Item>, cutoff: real): seq<Row>
    decreases |items|
  {
    if items == [] then [] else Rows(items[..|items| - 1], cutoff) + Keep(items[|items| - 1], cutoff)
  }

  /** The first `n` elements of `s` (all of them if there are fewer; none if `n <= 0`). */
  function Take<T>(s: seq<T>, n: int): (t: seq<T>)
    ensures |t| == if n <= 0 then 0 else if n < |s| then n else |s|
    ensures t == s[..|t|]
  {
    if n <= 0 then [] else if n < |s| then s[..n] else s
  }

  /** A response whose children the loop processes. */
  predicate Processed(r: Response)
  {
    r.Reply? && r.status == 200 && r.children != []
  }

  /** A response after which the loop requests another page (if below the limit). */
  predicate Continues(r: Response)
  {
    Processed(r) && Truthy(r.after)
  }

  /** The items the listing serves before collection for a subreddit ends, ignoring the limit. */
  function Served(pages: seq<Response>): seq<Item>
    decreases |pages|
  {
    if pages == [] then []
    else if Continues(pages[0]) then pages[0].children + Served(pages[1..])
    else if Processed(pages[0]) then pages[0].children
    else []
  }

  /** The items of the pages that are followed by another request. */
  function Leading(pages: seq<Response>): seq<Item>
    decreases |pages|
  {
    if pages == [] || !Continues(pages[0]) then [] else pages[0].children + Leading(pages[1..])
  }

  /** How the listing ends, when the limit does not end collection first. */
  function Ending(pages: seq<Response>): Stop
    decreases |pages|
  {
    if pages == [] then RequestFailed
    else if Continues(pages[0]) then Ending(pages[1..])
    else if pages[0].RequestError? || pages[0].status != 200 then RequestFailed
    else if pages[0].children == [] then NoMorePosts
    else EndOfListing
  }

  /** The rows collected for a subreddit: the eligible served items, cut at the limit. */
  function Expected(pages: seq<Response>, limit: int, cutoff: real): seq<Row>
  {
    Take(Rows(Served(pages), cutoff), limit)
  }

  /**
   * Why collection ends: the limit, if it is reached on a page that has a
   * cursor, that is, before the page that ends the listing.
   */
  function ExpectedStop(pages: seq<Response>, limit: int, cutoff: real): Stop
  {
    if limit <= 0 || |Rows(Leading(pages), cutoff)| >= limit then LimitReached else Ending(pages)
  }

  // ---------------------------------------------------------------------
  // Properties of the specification

  /** Filtering distributes over concatenation, so it keeps the order of the items. */
  lemma {:induction false} RowsAppend(a: seq<Item>, b: seq<Item>, cutoff: real)
    ensures Rows(a + b, cutoff) == Rows(a, cutoff) + Rows(b, cutoff)
    decreases |b|
  {
    if b == [] {
      assert a + b == a;
    } else {
      var b' := b[..|b| - 1];
      assert (a + b)[..|a + b| - 1] == a + b';
      assert (a + b)[|a + b| - 1] == b[|b| - 1];
      RowsAppend(a, b', cutoff);
    }
  }

  /** The rows are exactly the rows of the eligible items: nothing else enters, nothing eligible is lost. */
  lemma {:induction false} RowsMembership(items: seq<Item>, cutoff: real, r: Row)
    ensures r in Rows(items, cutoff) <==>
      exists i :: 0 <= i < |items| && Eligible(items[i], cutoff) && r == ToRow(items[i])
    decreases |items|
  {
    if items != [] {
      var init := items[..|items| - 1];
      RowsMembership(init, cutoff, r);
      assert forall i :: 0 <= i < |init| ==> init[i] == items[i];
    }
  }

  /** There are never more rows than items. */
  lemma {:induction false} RowsLength(items: seq<Item>, cutoff: real)
    ensures |Rows(items, cutoff)| <= |items|
    decreases |items|
  {
    if items != [] {
      RowsLength(items[..|items| - 1], cutoff);
    }
  }

  /** The positions of the eligible items of `items`, in increasing order. */
  function Picked(items: seq<Item>, cutoff: real): seq<int>
    decreases |items|
  {
    if items == [] then []
    else Picked(items[..|items| - 1], cutoff) + (if Eligible(items[|items| - 1], cutoff) then [|items| - 1] else [])
  }

  /**
   * The j-th row is the row of the item at the j-th eligible position, the
   * positions strictly increase, and every eligible position occurs: each
   * eligible item gives exactly one row, in listing order, and no other
   * item gives one.
   */
  lemma {:induction false} RowsPicked(items: seq<Item>, cutoff: real)
    ensures |Picked(items, cutoff)| == |Rows(items, cutoff)|
    ensures forall j :: 0 <= j < |Picked(items, cutoff)| ==>
      0 <= Picked(items, cutoff)[j] < |items| && Eligible(items[Picked(items, cutoff)[j]], cutoff)
      && Rows(items, cutoff)[j] == ToRow(items[Picked(items, cutoff)[j]])
    ensures forall j, k :: 0 <= j < k < |Picked(items, cutoff)| ==> Picked(items, cutoff)[j] < Picked(items, cutoff)[k]
    ensures forall i :: 0 <= i < |items| && Eligible(items[i], cutoff) ==> i in Picked(items, cutoff)
    decreases |items|
  {
    if items != [] {
      var init := items[..|items| - 1];
      RowsPicked(init, cutoff);
      assert forall i :: 0 <= i < |init| ==> init[i] == items[i];
      assert forall j :: 0 <= j < |Picked(init, cutoff)| ==> Picked(init, cutoff)[j] < |init|;
    }
  }

  /** The row of an eligible item passes the checks that collected rows must pass. */
  lemma EligibleRowSafe(p: Item, cutoff: real)
    requires Eligible(p, cutoff)
    ensures Safe(ToRow(p), cutoff)
  {
  }

  /** Every row of the eligible items is safe. */
  lemma {:induction false} RowsSafe(items: seq<Item>, cutoff: real)
    ensures forall r :: r in Rows(items, cutoff) ==> Safe(r, cutoff)
    decreases |items|
  {
    if items != [] {
      RowsSafe(items[..|items| - 1], cutoff);
    }
  }

  /** Once the first part already fills the limit, what follows does not matter. */
  lemma TakeFull<T>(a: seq<T>, b: seq<T>, n: int)
    requires n <= |a|
    ensures Take(a + b, n) == Take(a, n)
  {
    if n > 0 {
      assert (a + b)[..n] == a[..n];
    }
  }

  /** The rows collected never exceed the limit, and are all safe. */
  lemma ExpectedBounded(pages: seq<Response>, limit: int, cutoff: real)
    ensures |Expected(pages, limit, cutoff)| <= if limit <= 0 then 0 else limit
    ensures forall r :: r in Expected(pages, limit, cutoff) ==> Safe(r, cutoff)
  {
    RowsSafe(Served(pages), cutoff);
  }

  /** Raising the limit only extends the result: the rows for a smaller limit are a prefix. */
  lemma ExpectedMonotone(pages: seq<Response>, l1: int, l2: int, cutoff: real)
    requires l1 <= l2
    ensures Expected(pages, l1, cutoff) == Expected(pages, l2, cutoff)[..|Expected(pages, l1, cutoff)|]
  {
  }

  /**
   * A first page with children and no cursor is processed: its eligible
   * items are collected, up to the limit.
   */
  lemma FirstPageWithoutCursor(pages: seq<Response>, limit: int, cutoff: real)
    requires |pages| > 0 && Processed(pages[0]) && !Truthy(pages[0].after)
    ensures Expected(pages, limit, cutoff) == Take(Rows(pages[0].children, cutoff), limit)
    ensures limit > 0 ==> ExpectedStop(pages, limit, cutoff) == EndOfListing
  {
  }

  /** A first request that fails, or a first page without children, collects nothing. */
  lemma FirstPageUnusable(pages: seq<Response>, limit: int, cutoff: real)
    requires |pages| == 0 || !Processed(pages[0])
    ensures Expected(pages, limit, cutoff) == []
    ensures limit > 0 ==> ExpectedStop(pages, limit, cutoff) in {RequestFailed, NoMorePosts}
  {
  }

  /** An item whose `data` object is missing is skipped: `is_self` defaults to `False`. */
  lemma EmptyItemSkipped(cutoff: real)
    ensures !Eligible(EmptyItem, cutoff)
    ensures Rows([EmptyItem], cutoff) == []
  {
    assert [EmptyItem][..0] == [];
  }

  // A sample listing: one page of five posts without a cursor, three of
  // them eligible at the cutoff 100 and two marked adult.
  const PostA: Item := Item(Str("a"), Bool(true), Bool(false), Bool(false), Num(10.0), Num(5.0), Num(0.75))
  const PostB: Item := Item(Str("b"), Bool(true), Bool(false), Bool(false), Num(20.0), Num(0.0), Null)
  const PostC: Item := Item(Str("c"), Bool(true), Absent, Absent, Num(30.0), Absent, Absent)
  const AdultD: Item := PostA.(id := Str("d"), over18 := Bool(true))
  const AdultE: Item := PostB.(id := Str("e"), subredditOver18 := Bool(true))
  const SamplePages: seq<Response> := [Reply(200, [PostA, AdultD, PostB, AdultE, PostC], Null)]

  /**
   * One subreddit, a limit of 5, and the sample page: exactly the three
   * eligible posts are collected, in order, and the listing has ended.
   */
  lemma ThreeEligibleOfFive()
    ensures Expected(SamplePages, 5, 100.0) == [ToRow(PostA), ToRow(PostB), ToRow(PostC)]
    ensures ExpectedStop(SamplePages, 5, 100.0) == EndOfListing
  {
    assert Eligible(PostA, 100.0) && Eligible(PostB, 100.0) && Eligible(PostC, 100.0);
    assert !Eligible(AdultD, 100.0) && !Eligible(AdultE, 100.0);
    var s0, s1, s2, s3, s4, s5 := [], [PostA], [PostA, AdultD], [PostA, AdultD, PostB],
      [PostA, AdultD, PostB, AdultE], [PostA, AdultD, PostB, AdultE, PostC];
    assert s1 == s0 + [PostA] && s2 == s1 + [AdultD] && s3 == s2 + [PostB] && s4 == s3 + [AdultE] && s5 == s4 + [PostC];
    RowsSnoc(s0, PostA, 100.0);
    RowsSnoc(s1, AdultD, 100.0);
    RowsSnoc(s2, PostB, 100.0);
    RowsSnoc(s3, AdultE, 100.0);
    RowsSnoc(s4, PostC, 100.0);
    assert Rows(s5, 100.0) == [ToRow(PostA), ToRow(PostB), ToRow(PostC)];
  }

  // ---------------------------------------------------------------------
  // The loop

  /** The loop invariant on the listing: `seen` holds the items of the first `k` pages, all of them continuing. */
  ghost predicate Progress(pages: seq<Response>, k: int, seen: seq<Item>)
  {
    0 <= k <= |pages|
    && Served(pages) == seen + Served(pages[k..])
    && Leading(pages) == seen + Leading(pages[k..])
    && Ending(pages) == Ending(pages[k..])
  }

  lemma ProgressStart(pages: seq<Response>)
    ensures Progress(pages, 0, [])
  {
    assert pages[0..] == pages;
  }

  /** A continuing page moves the invariant one page on. */
  lemma ProgressStep(pages: seq<Response>, k: int, seen: seq<Item>)
    requires Progress(pages, k, seen) && k < |pages| && Continues(pages[k])
    ensures Progress(pages, k + 1, seen + pages[k].children)
  {
    var rest := pages[k..];
    assert rest[0] == pages[k] && rest[1..] == pages[k + 1..];
  }

  /** A failed request or an empty page ends the listing with nothing more served. */
  lemma ProgressUnusable(pages: seq<Response>, k: int, seen: seq<Item>)
    requires Progress(pages, k, seen) && (k == |pages| || !Processed(pages[k]))
    ensures Served(pages) == seen && Leading(pages) == seen
    ensures Ending(pages) == if k < |pages| && pages[k].Reply? && pages[k].status == 200 then NoMorePosts else RequestFailed
  {
    var rest := pages[k..];
    assert rest != [] ==> rest[0] == pages[k];
  }

  /** A processed page without a cursor is the last page served. */
  lemma ProgressLast(pages: seq<Response>, k: int, seen: seq<Item>)
    requires Progress(pages, k, seen) && k < |pages| && Processed(pages[k]) && !Truthy(pages[k].after)
    ensures Served(pages) == seen + pages[k].children && Leading(pages) == seen
    ensures Ending(pages) == EndOfListing
  {
    var rest := pages[k..];
    assert rest[0] == pages[k];
  }

  /** The filter on one more item. */
  lemma RowsSnoc(a: seq<Item>, x: Item, cutoff: real)
    ensures Rows(a + [x], cutoff) == Rows(a, cutoff) + Keep(x, cutoff)
  {
    assert (a + [x])[..|a + [x]| - 1] == a;
  }

  /** The filter on the first `i + 1` items of a page. */
  lemma RowsNext(children: seq<Item>, i: int, cutoff: real)
    requires 0 <= i < |children|
    ensures Rows(children[..i + 1], cutoff) == Rows(children[..i], cutoff) + Keep(children[i], cutoff)
  {
    assert children[..i + 1] == children[..i] + [children[i]];
    RowsSnoc(children[..i], children[i], cutoff);
  }

  /** Below the limit, taking changes nothing. */
  lemma TakeShort<T>(s: seq<T>, n: int)
    requires |Take(s, n)| < n
    ensures Take(s, n) == s
  {
  }

  /** When the limit stops collection part-way through a page, the rest of the page does not matter. */
  lemma StopMidPage(collected: seq<Row>, children: seq<Item>, i: int, limit: int, cutoff: real)
    requires 0 <= i <= |children| && limit <= |collected + Rows(children[..i], cutoff)|
    ensures Take(collected + Rows(children, cutoff), limit) == Take(collected + Rows(children[..i], cutoff), limit)
  {
    var front, back := Rows(children[..i], cutoff), Rows(children[i..], cutoff);
    assert Rows(children, cutoff) == front + back by {
      assert children[..i] + children[i..] == children;
      RowsAppend(children[..i], children[i..], cutoff);
    }
    assert collected + (front + back) == (collected + front) + back;
    TakeFull(collected + front, back, limit);
  }

  /** When the limit ends the loop, the rest of the listing does not matter. */
  lemma StopAtLimit(pages: seq<Response>, k: int, seen: seq<Item>, limit: int, cutoff: real)
    requires Progress(pages, k, seen) && |Take(Rows(seen, cutoff), limit)| >= limit
    ensures Take(Rows(seen, cutoff), limit) == Expected(pages, limit, cutoff)
    ensures ExpectedStop(pages, limit, cutoff) == LimitReached
  {
    RowsAppend(seen, Served(pages[k..]), cutoff);
    TakeFull(Rows(seen, cutoff), Rows(Served(pages[k..]), cutoff), limit);
    RowsAppend(seen, Leading(pages[k..]), cutoff);
  }

  /**
   * The `for child in children` loop: append the rows of the page's eligible
   * items to `collected`, leaving the page as soon as the limit is reached.
   */
  method CollectPage(children: seq<Item>, collected: seq<Row>, maxPostsPerSub: int, minCreatedUtc: real)
    returns (extended: seq<Row>)
    requires |collected| < maxPostsPerSub
    ensures extended == Take(collected + Rows(children, minCreatedUtc), maxPostsPerSub)
  {
    extended := collected;
    var i := 0;
    assert children[..0] == [];
    while i < |children|
      invariant 0 <= i <= |children|
      invariant |extended| < maxPostsPerSub
      invariant extended == collected + Rows(children[..i], minCreatedUtc)
    {
      var p := children[i];
      RowsNext(children, i, minCreatedUtc);
      i := i + 1;
      if !Truthy(Get(p.isSelf, Bool(false))) {
        continue;
      }
      if Truthy(p.over18) || Truthy(p.subredditOver18) {
        continue;
      }
      var createdUtc := p.createdUtc;
      if !IsNumber(createdUtc) {
        continue;
      }
      if AsReal(createdUtc) > minCreatedUtc {
        continue;
      }
      extended := extended + [ToRow(p)];
      if |extended| >= maxPostsPerSub {
        StopMidPage(collected, children, i, maxPostsPerSub, minCreatedUtc);
        return;
      }
    }
    assert children[..|children|] == children;
  }

  /**
   * `fetch_subreddit_posts(subreddit, max_posts_per_sub, min_created_utc)`,
   * with the subreddit's listing as `pages`.  Returns the collected rows and
   * which exit of the loop was taken.
   */
  method FetchSubredditPosts(pages: seq<Response>, maxPostsPerSub: int, minCreatedUtc: real)
    returns (collected: seq<Row>, stop: Stop)
    ensures collected == Expected(pages, maxPostsPerSub, minCreatedUtc)
    ensures stop == ExpectedStop(pages, maxPostsPerSub, minCreatedUtc)
    ensures |collected| <= if maxPostsPerSub <= 0 then 0 else maxPostsPerSub
    ensures forall r :: r in collected ==> Safe(r, minCreatedUtc)
  {
    collected := [];
    stop := LimitReached;
    var k := 0;  // the index of the next response
    ghost var seen: seq<Item> := [];  // the items of the pages processed so far
    ProgressStart(pages);
    while |collected| < maxPostsPerSub
      invariant Progress(pages, k, seen)
      invariant stop == LimitReached
      invariant collected == Take(Rows(seen, minCreatedUtc), maxPostsPerSub)
      decreases |pages| - k
    {
      TakeShort(Rows(seen, minCreatedUtc), maxPostsPerSub);
      var resp := if k < |pages| then pages[k] else RequestError;
      if resp.RequestError? {
        ProgressUnusable(pages, k, seen);
        stop := RequestFailed;
        break;
      }
      if resp.status != 200 {
        ProgressUnusable(pages, k, seen);
        stop := RequestFailed;
        break;
      }
      var children := resp.children;
      var after := resp.after;
      if children == [] {
        ProgressUnusable(pages, k, seen);
        stop := NoMorePosts;
        break;
      }
      collected := CollectPage(children, collected, maxPostsPerSub, minCreatedUtc);
      RowsAppend(seen, children, minCreatedUtc);
      if !Truthy(after) {
        ProgressLast(pages, k, seen);
        stop := EndOfListing;
        break;
      }
      ProgressStep(pages, k, seen);
      seen := seen + children;
      k := k + 1;
    }
    if stop == LimitReached {
      StopAtLimit(pages, k, seen, maxPostsPerSub, minCreatedUtc);
    }
    ExpectedBounded(pages, maxPostsPerSub, minCreatedUtc);
  }
}
