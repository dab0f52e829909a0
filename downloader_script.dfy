/** The top-level block of downloader.js, for its one slot. */
module DownloaderScript {
  import opened Paginator
  import opened TimelineBuilder
  import opened Outcomes
  import Serializer

  /** The older copy of the download: a first `null` answer is not checked
      for, so reading the last comment of the empty buffer throws; messages
      are not escaped. */
  method Run(responses: Responses, clock: seq<int>, render: seq<Chat> -> string)
    returns (result: Outcome, queries: seq<int>)
    requires FeedEnds(responses) && |clock| == |responses|
    ensures queries == Bounds(Served(responses), clock)
    ensures result != NoComments
    ensures var p := Accumulate(Served(responses));
      && (result == Crashed(LastOfEmptyBuffer) <==> p.raw == [])
      && (result == Crashed(NullOldestComment) <==> p.raw != [] && p.oldest.None?)
    ensures result.Saved? ==>
      var out := Finish(Accumulate(Served(responses)));
      && out.Collected? && out.oldest.Some? && out.oldest.value < |out.raw|
      && result.xml == Serializer.PostProcess(render(Timeline(out.raw, out.raw[out.oldest.value].createdAtMs, false)))
  {
    var collected;
    collected, queries := Paginate(responses, clock);
    if collected.EmptyFeed? {
      return Crashed(LastOfEmptyBuffer), queries;
    }
    var chat := BuildTimeline(collected.raw, collected.oldest, false);
    if chat.None? {
      return Crashed(NullOldestComment), queries;
    }
    result := Saved(Serializer.PostProcess(render(chat.value)));
  }
}
