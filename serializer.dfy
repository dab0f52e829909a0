/** Post-processing of the rendered XML document, shared by main.js and
    downloader.js: split into lines, keep the first occurrence of each line,
    join with CRLF, and strip the first ` standalone="yes"`. */
module Serializer {
  import opened Wrappers
  import opened Text

  /** The declaration attribute that downstream players reject. */
  const Standalone: string := " standalone=\"yes\""

  /** JavaScript `s.split(sep)` for a one-character separator: the pieces
      between separators, an empty piece at either end when `s` starts or
      ends with one, and `[""]` for the empty string. */
  function Split(s: string, sep: char): (parts: seq<string>)
    ensures |parts| >= 1
    ensures forall i :: 0 <= i < |parts| ==> sep !in parts[i]
    decreases |s|
  {
    if s == [] then [[]]
    else
      var rest := Split(s[1..], sep);
      if s[0] == sep then [[]] + rest
      else [[s[0]] + rest[0]] + rest[1..]
  }

  /** JavaScript `parts.join(sep)`. */
  function Join(parts: seq<string>, sep: string): string {
    if |parts| == 0 then []
    else if |parts| == 1 then parts[0]
    else parts[0] + sep + Join(parts[1..], sep)
  }

  lemma JoinCons(x: char, p: string, ps: seq<string>, sep: string)
    ensures Join([[x] + p] + ps, sep) == [x] + Join([p] + ps, sep)
  {
  }

  /** Splitting on a character and joining with `sep` replaces every
      occurrence of that character by `sep`. */
  lemma {:induction false} JoinSplit(s: string, c: char, sep: string)
    ensures Join(Split(s, c), sep) == ReplaceAll(s, c, sep)
  {
    if s != [] {
      var rest := Split(s[1..], c);
      JoinSplit(s[1..], c, sep);
      if s[0] == c {
        assert ([[]] + rest)[1..] == rest;
      } else {
        assert rest == [rest[0]] + rest[1..];
        JoinCons(s[0], rest[0], rest[1..], sep);
      }
    }
  }

  /** Joining the pieces with the separator itself gives the text back. */
  lemma {:induction false} SplitJoinRoundTrip(s: string, c: char)
    ensures Join(Split(s, c), [c]) == s
  {
    JoinSplit(s, c, [c]);
    ReplaceAllSelf(s, c);
  }

  /** JavaScript `lines.indexOf(x)`: the first position of `x`, or -1. */
  function IndexOf(lines: seq<string>, x: string): (r: int)
    ensures -1 <= r < |lines|
    ensures r == -1 <==> x !in lines
    ensures 0 <= r ==> lines[r] == x && x !in lines[..r]
  {
    if lines == [] then -1
    else if lines[0] == x then 0
    else
      var k := IndexOf(lines[1..], x);
      assert lines[1..][..if k < 0 then 0 else k] == lines[1..if k < 0 then 1 else k + 1];
      if k < 0 then -1 else k + 1
  }

  /** The `filter((line, index, self) => self.indexOf(line) === index)` pass
      over the first `n` lines: a line is kept when its index is the index of
      its first occurrence in the whole list. */
  function KeepFirst(lines: seq<string>, n: nat): seq<string>
    requires n <= |lines|
  {
    if n == 0 then []
    else KeepFirst(lines, n - 1) + (if IndexOf(lines, lines[n - 1]) == n - 1 then [lines[n - 1]] else [])
  }

  function UniqueLines(lines: seq<string>): seq<string> {
    KeepFirst(lines, |lines|)
  }

  predicate Distinct(lines: seq<string>) {
    forall i, j :: 0 <= i < j < |lines| ==> lines[i] != lines[j]
  }

  /** The line at index `n - 1` passes the filter exactly when it does not
      occur earlier. */
  lemma FirstAt(lines: seq<string>, n: nat)
    requires 0 < n <= |lines|
    ensures IndexOf(lines, lines[n - 1]) == n - 1 <==> lines[n - 1] !in lines[..n - 1]
  {
  }

  /** The filter over the first `n` lines keeps the same set of lines, keeps
      each only once, and keeps them in the order of their first occurrence. */
  lemma {:induction false} KeepFirstSpec(lines: seq<string>, n: nat)
    requires n <= |lines|
    ensures var r := KeepFirst(lines, n);
      && (forall x :: x in r <==> x in lines[..n])
      && Distinct(r)
      && (forall i :: 0 <= i < |r| ==> 0 <= IndexOf(lines, r[i]) < n)
      && (forall i, j :: 0 <= i < j < |r| ==> IndexOf(lines, r[i]) < IndexOf(lines, r[j]))
  {
    if n > 0 {
      KeepFirstSpec(lines, n - 1);
      FirstAt(lines, n);
      var prev := KeepFirst(lines, n - 1);
      var r := KeepFirst(lines, n);
      assert lines[..n] == lines[..n - 1] + [lines[n - 1]];
      if IndexOf(lines, lines[n - 1]) == n - 1 {
        assert r == prev + [lines[n - 1]];
        assert forall i :: 0 <= i < |prev| ==> r[i] == prev[i];
      } else {
        assert r == prev;
        assert lines[n - 1] in lines[..n - 1];
      }
    }
  }

  /** The line filter keeps exactly the first occurrence of every line, in
      the original order: the same lines, no duplicates, and ordered by the
      position where each first appeared. */
  lemma UniqueLinesSpec(lines: seq<string>)
    ensures var r := UniqueLines(lines);
      && (forall x :: x in r <==> x in lines)
      && Distinct(r)
      && (forall i, j :: 0 <= i < j < |r| ==> IndexOf(lines, r[i]) < IndexOf(lines, r[j]))
  {
    KeepFirstSpec(lines, |lines|);
    assert lines[..|lines|] == lines;
  }

  /** A list without repeated lines passes the filter unchanged. */
  lemma {:induction false} KeepFirstOfDistinct(lines: seq<string>, n: nat)
    requires Distinct(lines) && n <= |lines|
    ensures KeepFirst(lines, n) == lines[..n]
  {
    if n > 0 {
      KeepFirstOfDistinct(lines, n - 1);
      FirstAt(lines, n);
      assert lines[..n] == lines[..n - 1] + [lines[n - 1]];
    }
  }

  /** Filtering twice is the same as filtering once. */
  lemma UniqueLinesIdempotent(lines: seq<string>)
    ensures UniqueLines(UniqueLines(lines)) == UniqueLines(lines)
  {
    var r := UniqueLines(lines);
    UniqueLinesSpec(lines);
    KeepFirstOfDistinct(r, |r|);
    assert r[..|r|] == r;
  }

  /** `pat` occurs in `s` starting at index `i`. */
  predicate OccursAt(s: string, pat: string, i: nat) {
    i + |pat| <= |s| && s[i..i + |pat|] == pat
  }

  /** JavaScript `s.indexOf(pat, i)`: the first occurrence at or after `i`. */
  function FindFrom(s: string, pat: string, i: nat): (r: Option<nat>)
    requires i <= |s|
    ensures r.Some? ==> i <= r.value && OccursAt(s, pat, r.value)
    ensures r.Some? ==> forall j: nat :: i <= j < r.value ==> !OccursAt(s, pat, j)
    ensures r.None? ==> forall j: nat :: i <= j ==> !OccursAt(s, pat, j)
    decreases |s| - i
  {
    if OccursAt(s, pat, i) then Some(i)
    else if i == |s| then None
    else FindFrom(s, pat, i + 1)
  }

  /** JavaScript `s.replace(pat, "")` with a string pattern: only the first
      occurrence is removed. */
  function RemoveFirst(s: string, pat: string): (r: string)
    ensures (forall j: nat :: !OccursAt(s, pat, j)) ==> r == s
  {
    match FindFrom(s, pat, 0)
    case None => s
    case Some(i) => s[..i] + s[i + |pat|..]
  }

  /** When `i` is the first occurrence, the removal cuts out exactly that one. */
  lemma RemoveFirstAt(s: string, pat: string, i: nat)
    requires OccursAt(s, pat, i)
    requires forall j: nat :: j < i ==> !OccursAt(s, pat, j)
    ensures RemoveFirst(s, pat) == s[..i] + s[i + |pat|..]
  {
  }

  /** A later, non-overlapping occurrence survives the removal (shifted left). */
  lemma RemoveFirstKeepsLater(s: string, pat: string, i: nat, j: nat)
    requires OccursAt(s, pat, i)
    requires forall k: nat :: k < i ==> !OccursAt(s, pat, k)
    requires i + |pat| <= j && OccursAt(s, pat, j)
    ensures OccursAt(RemoveFirst(s, pat), pat, j - |pat|)
  {
    RemoveFirstAt(s, pat, i);
  }

  /** The whole post-processing of the rendered document. */
  function PostProcess(doc: string): string {
    RemoveFirst(Join(UniqueLines(Split(doc, '\n')), "\r\n"), Standalone)
  }

  /** When the document repeats no line, the post-processing is just the
      conversion of every LF to CRLF followed by the standalone strip. */
  lemma PostProcessWithoutRepeats(doc: string)
    requires Distinct(Split(doc, '\n'))
    ensures PostProcess(doc) == RemoveFirst(ReplaceAll(doc, '\n', "\r\n"), Standalone)
  {
    var lines := Split(doc, '\n');
    KeepFirstOfDistinct(lines, |lines|);
    assert lines[..|lines|] == lines;
    JoinSplit(doc, '\n', "\r\n");
  }
}
