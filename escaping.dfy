/** The message escaper of main.js (`escapeXml`): six global replacements
    applied one after another, ampersand first. */
module Escaping {
  import opened Text

  /** The six characters the escaper rewrites. */
  predicate Special(c: char) {
    c == '&' || c == '<' || c == '>' || c == '"' || c == '\'' || c == '\0'
  }

  /** `escapeXml`: the chain of global replacements, in the source's order. */
  function EscapeXml(s: string): string {
    var amp := ReplaceAll(s, '&', "&amp;");
    var lt := ReplaceAll(amp, '<', "&lt;");
    var gt := ReplaceAll(lt, '>', "&gt;");
    var quot := ReplaceAll(gt, '"', "&quot;");
    var apos := ReplaceAll(quot, '\'', "&#39;");
    ReplaceAll(apos, '\0', "&#x0;")
  }

  /** Reference definition: the entity each character stands for. */
  function EscapeChar(c: char): (r: string)
    ensures |r| >= 1
    ensures Special(c) <==> r[0] == '&' && |r| > 1
    ensures !Special(c) ==> r == [c]
    ensures '<' !in r && '>' !in r && '"' !in r && '\'' !in r && '\0' !in r
  {
    match c
    case '&' => "&amp;"
    case '<' => "&lt;"
    case '>' => "&gt;"
    case '"' => "&quot;"
    case '\'' => "&#39;"
    case '\0' => "&#x0;"
    case _ => [c]
  }

  /** Reference definition: escape character by character. */
  function EscapeEach(s: string): (r: string)
    ensures '<' !in r && '>' !in r && '"' !in r && '\'' !in r && '\0' !in r
  {
    if s == [] then [] else EscapeChar(s[0]) + EscapeEach(s[1..])
  }

  /** Inverse of the escaper: turns the six entities back into characters. */
  function Unescape(s: string): string
    decreases |s|
  {
    if s == [] then []
    else if "&amp;" <= s then "&" + Unescape(s[5..])
    else if "&lt;" <= s then "<" + Unescape(s[4..])
    else if "&gt;" <= s then ">" + Unescape(s[4..])
    else if "&quot;" <= s then "\"" + Unescape(s[6..])
    else if "&#39;" <= s then "'" + Unescape(s[5..])
    else if "&#x0;" <= s then "\0" + Unescape(s[5..])
    else [s[0]] + Unescape(s[1..])
  }

  /** The chain distributes over concatenation. */
  lemma EscapeXmlConcat(a: string, b: string)
    ensures EscapeXml(a + b) == EscapeXml(a) + EscapeXml(b)
  {
    ReplaceAllConcat(a, b, '&', "&amp;");
    var a1, b1 := ReplaceAll(a, '&', "&amp;"), ReplaceAll(b, '&', "&amp;");
    ReplaceAllConcat(a1, b1, '<', "&lt;");
    var a2, b2 := ReplaceAll(a1, '<', "&lt;"), ReplaceAll(b1, '<', "&lt;");
    ReplaceAllConcat(a2, b2, '>', "&gt;");
    var a3, b3 := ReplaceAll(a2, '>', "&gt;"), ReplaceAll(b2, '>', "&gt;");
    ReplaceAllConcat(a3, b3, '"', "&quot;");
    var a4, b4 := ReplaceAll(a3, '"', "&quot;"), ReplaceAll(b3, '"', "&quot;");
    ReplaceAllConcat(a4, b4, '\'', "&#39;");
    var a5, b5 := ReplaceAll(a4, '\'', "&#39;"), ReplaceAll(b4, '\'', "&#39;");
    ReplaceAllConcat(a5, b5, '\0', "&#x0;");
  }

  /** On one character the chain yields that character's entity: no later
      replacement matches anything an earlier one produced. */
  lemma EscapeXmlChar(c: char)
    ensures EscapeXml([c]) == EscapeChar(c)
  {
    ReplaceOne(c, '&', "&amp;");
    if c == '&' {
      Untouched("&amp;", 1);
    } else {
      ReplaceOne(c, '<', "&lt;");
      if c == '<' {
        Untouched("&lt;", 2);
      } else {
        ReplaceOne(c, '>', "&gt;");
        if c == '>' {
          Untouched("&gt;", 3);
        } else {
          ReplaceOne(c, '"', "&quot;");
          if c == '"' {
            Untouched("&quot;", 4);
          } else {
            ReplaceOne(c, '\'', "&#39;");
            if c == '\'' {
              Untouched("&#39;", 5);
            } else {
              ReplaceOne(c, '\0', "&#x0;");
            }
          }
        }
      }
    }
  }

  /** An entity contains none of the characters that later replacements look for. */
  lemma Untouched(e: string, k: nat)
    requires '<' !in e && '>' !in e && '"' !in e && '\'' !in e && '\0' !in e
    ensures k == 1 ==> ReplaceAll(ReplaceAll(ReplaceAll(ReplaceAll(ReplaceAll(e, '<', "&lt;"), '>', "&gt;"), '"', "&quot;"), '\'', "&#39;"), '\0', "&#x0;") == e
    ensures k == 2 ==> ReplaceAll(ReplaceAll(ReplaceAll(ReplaceAll(e, '>', "&gt;"), '"', "&quot;"), '\'', "&#39;"), '\0', "&#x0;") == e
    ensures k == 3 ==> ReplaceAll(ReplaceAll(ReplaceAll(e, '"', "&quot;"), '\'', "&#39;"), '\0', "&#x0;") == e
    ensures k == 4 ==> ReplaceAll(ReplaceAll(e, '\'', "&#39;"), '\0', "&#x0;") == e
    ensures k == 5 ==> ReplaceAll(e, '\0', "&#x0;") == e
  {
    ReplaceAllAbsent(e, '<', "&lt;");
    ReplaceAllAbsent(e, '>', "&gt;");
    ReplaceAllAbsent(e, '"', "&quot;");
    ReplaceAllAbsent(e, '\'', "&#39;");
    ReplaceAllAbsent(e, '\0', "&#x0;");
  }

  lemma ReplaceOne(c: char, d: char, rep: string)
    ensures ReplaceAll([c], d, rep) == if c == d then rep else [c]
  {
  }

  /** `escapeXml` acts per character: the chain equals the reference escaper. */
  lemma {:induction false} EscapeXmlPerChar(s: string)
    ensures EscapeXml(s) == EscapeEach(s)
  {
    if s == [] {
      assert EscapeXml(s) == [];
    } else {
      assert s == [s[0]] + s[1..];
      EscapeXmlConcat([s[0]], s[1..]);
      EscapeXmlChar(s[0]);
      EscapeXmlPerChar(s[1..]);
    }
  }

  /** The escaped text holds no raw `<`, `>`, `"`, `'` or NUL. */
  lemma EscapeXmlSafe(s: string)
    ensures var r := EscapeXml(s);
      '<' !in r && '>' !in r && '"' !in r && '\'' !in r && '\0' !in r
  {
    EscapeXmlPerChar(s);
  }

  /** Text free of the six characters is not changed by the escaper. */
  lemma {:induction false} EscapeXmlPlain(s: string)
    requires forall i :: 0 <= i < |s| ==> !Special(s[i])
    ensures EscapeXml(s) == s
  {
    EscapeXmlPerChar(s);
    EscapeEachPlain(s);
  }

  lemma {:induction false} EscapeEachPlain(s: string)
    requires forall i :: 0 <= i < |s| ==> !Special(s[i])
    ensures EscapeEach(s) == s
  {
    if s != [] {
      EscapeEachPlain(s[1..]);
    }
  }

  /** Two strings that differ at position `i` are not prefix-related. */
  lemma NotPrefix(e: string, s: string, i: nat)
    requires i < |e| && i < |s| && e[i] != s[i]
    ensures !(e <= s)
  {
  }

  /** Unescape after EscapeChar gives the character back, whatever follows. */
  lemma UnescapeEscapeChar(c: char, rest: string)
    ensures Unescape(EscapeChar(c) + rest) == [c] + Unescape(rest)
  {
    var s := EscapeChar(c) + rest;
    if c == '&' {
      assert s[..5] == "&amp;" && s[5..] == rest;
    } else if c == '<' {
      NotPrefix("&amp;", s, 1);
      assert s[..4] == "&lt;" && s[4..] == rest;
    } else if c == '>' {
      NotPrefix("&amp;", s, 1);
      NotPrefix("&lt;", s, 1);
      assert s[..4] == "&gt;" && s[4..] == rest;
    } else if c == '"' {
      NotPrefix("&amp;", s, 1);
      NotPrefix("&lt;", s, 1);
      NotPrefix("&gt;", s, 1);
      assert s[..6] == "&quot;" && s[6..] == rest;
    } else if c == '\'' {
      NotPrefix("&amp;", s, 1);
      NotPrefix("&lt;", s, 1);
      NotPrefix("&gt;", s, 1);
      NotPrefix("&quot;", s, 1);
      assert s[..5] == "&#39;" && s[5..] == rest;
    } else if c == '\0' {
      NotPrefix("&amp;", s, 1);
      NotPrefix("&lt;", s, 1);
      NotPrefix("&gt;", s, 1);
      NotPrefix("&quot;", s, 1);
      NotPrefix("&#39;", s, 2);
      assert s[..5] == "&#x0;" && s[5..] == rest;
    } else {
      assert s[0] == c && s[1..] == rest;
      NotPrefix("&amp;", s, 0);
      NotPrefix("&lt;", s, 0);
      NotPrefix("&gt;", s, 0);
      NotPrefix("&quot;", s, 0);
      NotPrefix("&#39;", s, 0);
      NotPrefix("&#x0;", s, 0);
    }
  }

  /** Round trip: unescaping the escaped message gives the message back, so
      no entity introduced by an earlier replacement is escaped again. */
  lemma {:induction false} UnescapeEscapeXml(s: string)
    ensures Unescape(EscapeXml(s)) == s
  {
    EscapeXmlPerChar(s);
    UnescapeEscapeEach(s);
  }

  lemma {:induction false} UnescapeEscapeEach(s: string)
    ensures Unescape(EscapeEach(s)) == s
  {
    if s != [] {
      UnescapeEscapeChar(s[0], EscapeEach(s[1..]));
      UnescapeEscapeEach(s[1..]);
    }
  }

  /** Escaping never shortens text, and lengthens any text holding one of the six. */
  lemma {:induction false} EscapeEachGrows(t: string)
    ensures |EscapeEach(t)| >= |t|
    ensures (exists i :: 0 <= i < |t| && Special(t[i])) ==> |EscapeEach(t)| > |t| && '&' in EscapeEach(t)
  {
    if t != [] {
      EscapeEachGrows(t[1..]);
      if exists i :: 0 <= i < |t| && Special(t[i]) {
        var i :| 0 <= i < |t| && Special(t[i]);
        if i > 0 {
          assert Special(t[1..][i - 1]);
        }
      }
    }
  }

  /** Escaping is not idempotent: once a message holds one of the six
      characters, escaping the escaped text changes it again. */
  lemma EscapeXmlTwice(s: string)
    requires exists i :: 0 <= i < |s| && Special(s[i])
    ensures EscapeXml(EscapeXml(s)) != EscapeXml(s)
  {
    var e := EscapeXml(s);
    EscapeXmlPerChar(s);
    EscapeEachGrows(s);
    var k :| 0 <= k < |e| && e[k] == '&';
    assert Special(e[k]);
    EscapeXmlPerChar(e);
    EscapeEachGrows(e);
  }
}
