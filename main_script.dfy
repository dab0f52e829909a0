/** `download` of main.js, for one slot. */
module MainScript {
  import opened Wrappers
  import opened Paginator
  import opened TimelineBuilder
  import opened Outcomes
  import Serializer

  /** Fetch every page, build the escaped timeline, render it with the XML
      builder `render`, and post-process the text. */
  method Download(responses: Responses, clock: seq<int>, render: seq<Chat> -> string)
    returns (result: Outcome, queries: seq<int>)
    requires FeedEnds(responses) && |clock| == |responses|
    ensures queries == Bounds(Served(responses), clock)
    ensures var p := Accumulate(Served(responses));
      && (result == NoComments <==> p.raw == [])
      && (result.Crashed? <==> p.raw != [] && p.oldest.None?)
      && (result.Crashed? ==> result.reason == NullOldestComment)
    ensures result.Saved? ==>
      var out := Finish(Accumulate(Served(responses)));
      && out.Collected? && out.oldest.Some? && out.oldest.value < |out.raw|
      && result.xml == Serializer.PostProcess(render(Timeline(out.raw, out.raw[out.oldest.value].createdAtMs, true)))
  {
    var collected;
    collected, queries := Paginate(responses, clock);
    if collected.EmptyFeed? {
      return NoComments, queries;
    }
    var chat := BuildTimeline(collected.raw, collected.oldest, true);
    if chat.None? {
      return Crashed(NullOldestComment), queries;
    }
    result := Saved(Serializer.PostProcess(render(chat.value)));
  }

  /** Two pages, [5000, 3000] and then [1000], and then `null`: the second
      query is bounded by 3000, the third by 999 (the lone comment lowered),
      the lone comment gets its millisecond back and is the reference, and
      the timeline runs oldest first with `date` 1, 3, 5 and `vpos` 0, 200, 400. */
  lemma TwoPageScenario(c5: RawComment, c3: RawComment, c1: RawComment, clock: seq<int>)
    requires |clock| == 3
    requires c5.createdAtMs == 5000 && c3.createdAtMs == 3000 && c1.createdAtMs == 1000
    ensures var pages := Served([Some([c5, c3]), Some([c1]), None]);
      var out := Finish(Accumulate(pages));
      && Bounds(pages, clock) == [clock[0], 3000, 999]
      && out == Collected([c5, c3, c1], Some(2))
      && var t := Timeline(out.raw, out.raw[2].createdAtMs, true);
      && t[0].id == c1.id && t[1].id == c3.id && t[2].id == c5.id
      && t[0].date == 1 && t[1].date == 3 && t[2].date == 5
      && t[0].vpos == 0 && t[1].vpos == 200 && t[2].vpos == 400
  {
    var responses: Responses := [Some([c5, c3]), Some([c1]), None];
    var pages := Served(responses);
    assert pages == [[c5, c3], [c1]];
    assert pages[..1] == [[c5, c3]] && pages[..0] == [] && pages[..2] == pages;
    var p1 := Accumulate(pages[..1]);
    assert p1 == Progress([c5, c3], None);
    var p2 := Accumulate(pages);
    assert p2 == Progress([c5, c3, Shift(c1, -1)], Some(2));
    var raw := [c5, c3, c1];
    assert Finish(p2).raw == raw;
  }
}
