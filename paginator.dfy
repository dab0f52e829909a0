/** The comment paginator of main.js and downloader.js: the `while (true)`
    loop that asks the comment API for the comments at or before a time
    bound, page after page, until the API answers `null`. */
module Paginator {
  import opened Wrappers

  /** One comment as the API returns it. */
  datatype RawComment = RawComment(id: string, userId: string, message: string, createdAtMs: int)

  /** The accumulated state of one download: `raw` is `packet.rawComments`
      and `oldest` is `packet.rawOldComment`, given as the position of that
      very object in `raw`, so that a timestamp change made through either
      name is seen through the other. */
  datatype Progress = Progress(raw: seq<RawComment>, oldest: Option<nat>)

  /** How the loop ends: the API answered `null` before any comment was
      collected, or it answered `null` after some were. */
  datatype Pagination = EmptyFeed | Collected(raw: seq<RawComment>, oldest: Option<nat>)

  /** The API's answers, one per call in call order; `None` is a `null`
      `comments` field. */
  type Responses = seq<Option<seq<RawComment>>>

  /** The comment with its timestamp moved by `d` milliseconds. */
  function Shift(c: RawComment, d: int): RawComment {
    c.(createdAtMs := c.createdAtMs + d)
  }

  /** The `until` bound of a query: the timestamp of the last collected
      comment, or the clock reading `now` taken for this call while nothing
      has been collected. */
  function QueryBound(raw: seq<RawComment>, now: int): int {
    if raw == [] then now else raw[|raw| - 1].createdAtMs
  }

  /** One non-null page: a page of exactly one comment becomes the oldest
      comment and is lowered by one millisecond; every page is appended. */
  function Absorb(p: Progress, page: seq<RawComment>): (r: Progress)
    ensures |r.raw| == |p.raw| + |page| && r.raw[..|p.raw|] == p.raw
    ensures |page| != 1 ==> r.oldest == p.oldest
  {
    if |page| == 1 then Progress(p.raw + [Shift(page[0], -1)], Some(|p.raw|))
    else Progress(p.raw + page, p.oldest)
  }

  /** The pages concatenated in fetch order. */
  function Flatten(pages: seq<seq<RawComment>>): seq<RawComment> {
    if pages == [] then [] else Flatten(pages[..|pages| - 1]) + pages[|pages| - 1]
  }

  /** The positions, in the concatenated pages, of comments that came alone
      in their page. */
  function Sentinels(pages: seq<seq<RawComment>>): (s: set<nat>)
    ensures forall j :: j in s ==> j < |Flatten(pages)|
  {
    if pages == [] then {}
    else
      var prev := pages[..|pages| - 1];
      Sentinels(prev) + (if |pages[|pages| - 1]| == 1 then {|Flatten(prev)|} else {})
  }

  /** The state after the given non-null pages, starting from an empty packet. */
  function Accumulate(pages: seq<seq<RawComment>>): (p: Progress)
    ensures |p.raw| == |Flatten(pages)|
    ensures p.oldest.Some? ==> p.oldest.value < |p.raw|
  {
    if pages == [] then Progress([], None)
    else Absorb(Accumulate(pages[..|pages| - 1]), pages[|pages| - 1])
  }

  /** The `null` answer: with nothing collected the loop gives up; otherwise
      the last collected comment gets its millisecond back. */
  function Finish(p: Progress): (r: Pagination)
    ensures r.EmptyFeed? <==> p.raw == []
    ensures r.Collected? ==>
      && |r.raw| == |p.raw| && r.oldest == p.oldest
      && r.raw[..|p.raw| - 1] == p.raw[..|p.raw| - 1]
      && r.raw[|p.raw| - 1].createdAtMs == p.raw[|p.raw| - 1].createdAtMs + 1
  {
    if p.raw == [] then EmptyFeed
    else Collected(p.raw[|p.raw| - 1 := Shift(p.raw[|p.raw| - 1], 1)], p.oldest)
  }

  /** The feed ends: some call is answered with `null`. */
  predicate FeedEnds(responses: Responses) {
    exists k :: 0 <= k < |responses| && responses[k].None?
  }

  /** The pages served before the first `null`. */
  function Served(responses: Responses): (pages: seq<seq<RawComment>>)
    ensures |pages| <= |responses|
    ensures forall k :: 0 <= k < |pages| ==> responses[k] == Some(pages[k])
    ensures |pages| < |responses| ==> responses[|pages|] == None
    ensures FeedEnds(responses) ==> |pages| < |responses|
  {
    if responses == [] || responses[0].None? then []
    else [responses[0].value] + Served(responses[1..])
  }

  /** The `until` bound of every call, the final (null-answered) one
      included; `clock[k]` is what `+new Date()` reads at call k. */
  function Bounds(pages: seq<seq<RawComment>>, clock: seq<int>): (b: seq<int>)
    requires |pages| < |clock|
    ensures |b| == |pages| + 1
  {
    seq(|pages| + 1, k requires 0 <= k <= |pages| => QueryBound(Accumulate(pages[..k]).raw, clock[k]))
  }

  /** The loop of `download` (main.js) and of the top-level block of
      downloader.js. `responses[k]` is the answer to the k-th call, which was
      asked with bound `queries[k]`, and `clock[k]` is the clock at that call. */
  method Paginate(responses: Responses, clock: seq<int>) returns (outcome: Pagination, queries: seq<int>)
    requires FeedEnds(responses) && |clock| == |responses|
    ensures queries == Bounds(Served(responses), clock)
    ensures outcome == Finish(Accumulate(Served(responses)))
  {
    ghost var pages := Served(responses);
    var raw: seq<RawComment> := [];
    var oldest: Option<nat> := None;
    var call := 0;
    queries := [];
    while true
      invariant 0 <= call <= |pages|
      invariant Progress(raw, oldest) == Accumulate(pages[..call])
      invariant queries == Bounds(pages, clock)[..call]
      decreases |pages| - call
    {
      var until := if |raw| == 0 then clock[call] else raw[|raw| - 1].createdAtMs;
      assert until == Bounds(pages, clock)[call];
      queries := queries + [until];
      assert queries == Bounds(pages, clock)[..call + 1];
      var comments := responses[call];
      if comments == None {
        assert call == |pages|;
        assert pages[..call] == pages;
        assert queries == Bounds(pages, clock);
        if |raw| == 0 {
          outcome := EmptyFeed;
          return;
        }
        raw := raw[|raw| - 1 := Shift(raw[|raw| - 1], 1)];
        break;
      }
      var page := comments.value;
      assert pages[..call + 1] == pages[..call] + [page];
      if |page| == 1 {
        oldest := Some(|raw|);
        page := [Shift(page[0], -1)];
      }
      raw := raw + page;
      call := call + 1;
    }
    outcome := Collected(raw, oldest);
  }

  /** How the bound moves from one call to the next: while nothing has been
      collected it is that call's clock reading; an empty page after some
      comments leaves it where it was; a page of one comment moves it one
      millisecond below that comment, and a longer page moves it to the
      page's last comment. */
  lemma NextBound(pages: seq<seq<RawComment>>, clock: seq<int>, k: nat)
    requires k < |pages| < |clock|
    ensures var b := Bounds(pages, clock); var page := pages[k];
      && (Flatten(pages[..k]) == [] ==> b[k] == clock[k])
      && b[k + 1] == if |page| == 0 then (if Flatten(pages[..k]) == [] then clock[k + 1] else b[k])
                     else if |page| == 1 then page[0].createdAtMs - 1
                     else page[|page| - 1].createdAtMs
  {
    assert pages[..k + 1][..k] == pages[..k];
  }

  /** What the collected buffer holds: the pages concatenated in fetch order,
      every comment with its own id, author and message, and only those that
      came alone in their page lowered by one millisecond. The oldest-comment
      reference is the last such comment, or absent when there was none. */
  lemma {:induction false} AccumulateSpec(pages: seq<seq<RawComment>>)
    ensures var p := Accumulate(pages); var flat := Flatten(pages);
      && |p.raw| == |flat|
      && (forall j :: 0 <= j < |flat| ==> p.raw[j] == Shift(flat[j], if j in Sentinels(pages) then -1 else 0))
      && (p.oldest.None? <==> Sentinels(pages) == {})
      && (p.oldest.Some? ==> p.oldest.value in Sentinels(pages))
      && (p.oldest.Some? ==> forall j :: j in Sentinels(pages) ==> j <= p.oldest.value)
  {
    if pages != [] {
      var prev := pages[..|pages| - 1];
      var page := pages[|pages| - 1];
      AccumulateSpec(prev);
      var q := Accumulate(prev);
      var p := Accumulate(pages);
      var flat := Flatten(pages);
      assert flat == Flatten(prev) + page;
      forall j | 0 <= j < |flat|
        ensures p.raw[j] == Shift(flat[j], if j in Sentinels(pages) then -1 else 0)
      {
        if j < |q.raw| {
          assert p.raw[j] == q.raw[j];
        }
      }
    }
  }

  /** What the loop hands to the timeline builder when some comment was
      collected: the concatenated pages, lowered by one millisecond where a
      comment came alone in its page, except the very last comment, which
      is raised by one millisecond instead. When that last comment did come
      alone, it is therefore back at its true time, and it is the oldest-comment
      reference. */
  lemma CollectedSpec(pages: seq<seq<RawComment>>)
    requires Flatten(pages) != []
    ensures var flat := Flatten(pages); var last := |flat| - 1;
      var s := Sentinels(pages); var out := Finish(Accumulate(pages));
      && out.Collected?
      && |out.raw| == |flat|
      && (forall j :: 0 <= j < last ==> out.raw[j] == Shift(flat[j], if j in s then -1 else 0))
      && out.raw[last] == Shift(flat[last], if last in s then 0 else 1)
      && out.oldest == Accumulate(pages).oldest
      && (out.oldest.None? <==> s == {})
      && (out.oldest.Some? ==> out.oldest.value in s && forall j :: j in s ==> j <= out.oldest.value)
      && (last in s ==> out.oldest == Some(last))
  {
    AccumulateSpec(pages);
  }
}
