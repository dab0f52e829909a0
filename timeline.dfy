/** The timeline builder: every collected comment becomes one `chat` entry
    whose `vpos` counts hundredths of a second from the oldest-comment
    reference, and the entries are reversed so that the oldest comes first. */
module TimelineBuilder {
  import opened Wrappers
  import opened Paginator
  import Escaping

  /** One `chat` element: its attributes and its text. */
  datatype Chat = Chat(date: int, userId: string, id: string, vpos: int, createdAtMs: int, text: string)

  /** The entry for one comment, with `base` the reference timestamp.
      `date` and `vpos` are `Math.floor` of the quotients; the text is the
      escaped message in main.js and the raw message in downloader.js. */
  function Entry(c: RawComment, base: int, escape: bool): (e: Chat)
    ensures e.date * 1000 <= c.createdAtMs < e.date * 1000 + 1000
    ensures e.vpos * 10 <= c.createdAtMs - base < e.vpos * 10 + 10
    ensures e.userId == c.userId && e.id == c.id && e.createdAtMs == c.createdAtMs
    ensures e.text == if escape then Escaping.EscapeXml(c.message) else c.message
  {
    Chat(c.createdAtMs / 1000, c.userId, c.id, (c.createdAtMs - base) / 10, c.createdAtMs,
         if escape then Escaping.EscapeXml(c.message) else c.message)
  }

  /** The entries of all comments, last collected first. */
  function Timeline(raw: seq<RawComment>, base: int, escape: bool): (t: seq<Chat>)
    ensures |t| == |raw|
    ensures forall k :: 0 <= k < |raw| ==> t[k] == Entry(raw[|raw| - 1 - k], base, escape)
  {
    if raw == [] then []
    else Timeline(raw[1..], base, escape) + [Entry(raw[0], base, escape)]
  }

  /** The `for` loop that pushes one entry per collected comment, followed by
      `chat.reverse()`. Reading the reference timestamp fails (a TypeError in
      the source) when comments were collected but no page ever held exactly
      one comment. */
  method BuildTimeline(raw: seq<RawComment>, oldest: Option<nat>, escape: bool) returns (chat: Option<seq<Chat>>)
    requires oldest.Some? ==> oldest.value < |raw|
    ensures oldest.None? ==> chat == (if raw == [] then Some([]) else None)
    ensures oldest.Some? ==> chat == Some(Timeline(raw, raw[oldest.value].createdAtMs, escape))
  {
    var n := |raw|;
    var a := new Chat[n];
    var i, base := 0, 0;
    while i < n
      invariant 0 <= i <= n
      invariant i > 0 ==> oldest.Some? && base == raw[oldest.value].createdAtMs
      invariant forall k :: 0 <= k < i ==> a[k] == Entry(raw[k], base, escape)
    {
      if oldest.None? {
        return None;
      }
      base := raw[oldest.value].createdAtMs;
      a[i] := Entry(raw[i], base, escape);
      i := i + 1;
    }
    ghost var pushed := a[..];
    Reverse(a);
    if oldest.None? {
      return Some([]);
    }
    base := raw[oldest.value].createdAtMs;
    ReversedEntries(raw, base, escape, pushed, a[..]);
    chat := Some(a[..]);
  }

  /** The entries in push order, reversed, are the timeline. */
  lemma ReversedEntries(raw: seq<RawComment>, base: int, escape: bool, pushed: seq<Chat>, reversed: seq<Chat>)
    requires |pushed| == |raw| == |reversed|
    requires forall k :: 0 <= k < |raw| ==> pushed[k] == Entry(raw[k], base, escape)
    requires forall k :: 0 <= k < |raw| ==> reversed[k] == pushed[|raw| - 1 - k]
    ensures reversed == Timeline(raw, base, escape)
  {
  }

  /** `Array.prototype.reverse`, in place. */
  method Reverse(a: array<Chat>)
    modifies a
    ensures forall k :: 0 <= k < a.Length ==> a[k] == old(a[a.Length - 1 - k])
  {
    var n := a.Length;
    var j := 0;
    while j < n / 2
      invariant 0 <= j <= n / 2
      invariant forall k :: 0 <= k < j ==> a[k] == old(a[n - 1 - k]) && a[n - 1 - k] == old(a[k])
      invariant forall k :: j <= k < n - j ==> a[k] == old(a[k])
    {
      a[j], a[n - 1 - j] := a[n - 1 - j], a[j];
      j := j + 1;
    }
  }

  /** Read in output order, a newest-first buffer gives non-decreasing
      `date` and `vpos`. */
  lemma TimelineOrdered(raw: seq<RawComment>, base: int, escape: bool)
    requires forall i, j :: 0 <= i < j < |raw| ==> raw[i].createdAtMs >= raw[j].createdAtMs
    ensures var t := Timeline(raw, base, escape);
      forall i, j :: 0 <= i < j < |t| ==> t[i].date <= t[j].date && t[i].vpos <= t[j].vpos
  {
  }

  /** The reference comment itself sits at offset zero. */
  lemma ReferenceAtZero(raw: seq<RawComment>, o: nat, escape: bool)
    requires o < |raw|
    ensures Timeline(raw, raw[o].createdAtMs, escape)[|raw| - 1 - o].vpos == 0
  {
  }

  /** When the reference is the earliest collected comment, no offset is negative. */
  lemma OffsetsNonNegative(raw: seq<RawComment>, o: nat, escape: bool)
    requires o < |raw|
    requires forall j :: 0 <= j < |raw| ==> raw[o].createdAtMs <= raw[j].createdAtMs
    ensures forall k :: 0 <= k < |raw| ==> Timeline(raw, raw[o].createdAtMs, escape)[k].vpos >= 0
  {
  }
}
