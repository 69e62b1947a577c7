/** `escapeHtml`: each of `& < > " '` replaced by its character entity before a name is placed in markup. */
module Html {
  import Text

  /** The five characters the page escapes. */
  predicate IsSpecial(c: char) {
    c == '&' || c == '<' || c == '>' || c == '"' || c == '\''
  }

  /** The replacement for one character. */
  function EscapeChar(c: char): (r: string)
    ensures |r| > 0 && (r[0] == '&' <==> IsSpecial(c))
    ensures forall i :: 0 <= i < |r| ==> !IsSpecial(r[i]) || r[i] == '&'
  {
    match c
    case '&' => "&amp;"
    case '<' => "&lt;"
    case '>' => "&gt;"
    case '"' => "&quot;"
    case '\'' => "&#039;"
    case _ => [c]
  }

  /** The escaped text: no markup-significant character survives except the `&` that opens an entity. */
  function EscapeHtml(s: string): (r: string)
    ensures forall i :: 0 <= i < |r| ==> !IsSpecial(r[i]) || r[i] == '&'
  {
    if |s| == 0 then [] else EscapeChar(s[0]) + EscapeHtml(s[1..])
  }

  /** One of the five entities starts at position `i` of `t`. */
  predicate EntityAt(t: string, i: nat)
    requires i <= |t|
  {
    var u := t[i..];
    Text.StartsWith(u, "&amp;") || Text.StartsWith(u, "&lt;") || Text.StartsWith(u, "&gt;")
    || Text.StartsWith(u, "&quot;") || Text.StartsWith(u, "&#039;")
  }

  /** Decodes the five entities, left to right; every other character stands for itself. */
  function UnescapeHtml(t: string): string
    decreases |t|
  {
    if |t| == 0 then []
    else if Text.StartsWith(t, "&amp;") then "&" + UnescapeHtml(t[5..])
    else if Text.StartsWith(t, "&lt;") then "<" + UnescapeHtml(t[4..])
    else if Text.StartsWith(t, "&gt;") then ">" + UnescapeHtml(t[4..])
    else if Text.StartsWith(t, "&quot;") then "\"" + UnescapeHtml(t[6..])
    else if Text.StartsWith(t, "&#039;") then "'" + UnescapeHtml(t[6..])
    else [t[0]] + UnescapeHtml(t[1..])
  }

  lemma Prefix(e: string, rest: string)
    ensures Text.StartsWith(e + rest, e)
  {
    assert (e + rest)[..|e|] == e;
  }

  /** A text that begins with `e` does not start with an `x` that differs from `e` at position `k`. */
  lemma Differs(e: string, rest: string, x: string, k: nat)
    requires k < |e| && k < |x| && x[k] != e[k]
    ensures !Text.StartsWith(e + rest, x)
  {
    if |x| <= |e + rest| {
      assert (e + rest)[..|x|][k] == e[k];
    }
  }

  lemma UnescapeChar(c: char, rest: string)
    ensures UnescapeHtml(EscapeChar(c) + rest) == [c] + UnescapeHtml(rest)
  {
    var e := EscapeChar(c);
    assert (e + rest)[|e|..] == rest;
    Prefix(e, rest);
    match c
    case '&' =>
    case '<' =>
      Differs(e, rest, "&amp;", 1);
    case '>' =>
      Differs(e, rest, "&amp;", 1);
      Differs(e, rest, "&lt;", 1);
    case '"' =>
      Differs(e, rest, "&amp;", 1);
      Differs(e, rest, "&lt;", 1);
      Differs(e, rest, "&gt;", 1);
    case '\'' =>
      Differs(e, rest, "&amp;", 1);
      Differs(e, rest, "&lt;", 1);
      Differs(e, rest, "&gt;", 1);
      Differs(e, rest, "&quot;", 1);
    case _ =>
      Differs(e, rest, "&amp;", 0);
      Differs(e, rest, "&lt;", 0);
      Differs(e, rest, "&gt;", 0);
      Differs(e, rest, "&quot;", 0);
      Differs(e, rest, "&#039;", 0);
  }

  /** Decoding the entities gives back the original text. */
  lemma {:induction false} UnescapeEscape(s: string)
    ensures UnescapeHtml(EscapeHtml(s)) == s
  {
    if |s| > 0 {
      UnescapeEscape(s[1..]);
      UnescapeChar(s[0], EscapeHtml(s[1..]));
      assert [s[0]] + s[1..] == s;
    }
  }

  /** Every `&` in the output opens one of the five entities. */
  lemma {:induction false} AmpersandsOpenEntities(s: string)
    ensures forall i :: 0 <= i < |EscapeHtml(s)| && EscapeHtml(s)[i] == '&' ==> EntityAt(EscapeHtml(s), i)
  {
    if |s| > 0 {
      AmpersandsOpenEntities(s[1..]);
      var e := EscapeChar(s[0]);
      var tail := EscapeHtml(s[1..]);
      var r := e + tail;
      forall i | 0 <= i < |r| && r[i] == '&'
        ensures EntityAt(r, i)
      {
        if i < |e| {
          assert i == 0 && r[i..] == e + tail;
          Prefix(e, tail);
          assert e == "&amp;" || e == "&lt;" || e == "&gt;" || e == "&quot;" || e == "&#039;";
        } else {
          assert tail[i - |e|] == '&';
          assert EntityAt(tail, i - |e|);
          assert r[i..] == tail[i - |e|..];
        }
      }
    }
  }

  /** Text without any of the five characters is returned unchanged. */
  lemma {:induction false} EscapePlain(s: string)
    requires forall i :: 0 <= i < |s| ==> !IsSpecial(s[i])
    ensures EscapeHtml(s) == s
  {
    if |s| > 0 {
      EscapePlain(s[1..]);
      assert [s[0]] + s[1..] == s;
    }
  }
}
