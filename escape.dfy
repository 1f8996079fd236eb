/**
 * The two string escapers of frontend/script.js. `escapeHtml` prepares text
 * for HTML element content, `escapeJs` prepares text for the inside of a
 * single-quoted JavaScript string literal in an `onclick` handler. Both
 * are chains of global one-character `String.prototype.replace` calls;
 * each chain is shown equal to a one-pass, per-character escaper, and the
 * output properties are proved of that.
 */
module Escape {
  import opened Optional

  /** `s.replace(/c/g, rep)`: every occurrence of the character `c` replaced by `rep`. */
  function ReplaceAll(s: string, c: char, rep: string): string {
    if s == [] then [] else (if s[0] == c then rep else [s[0]]) + ReplaceAll(s[1..], c, rep)
  }

  /** When the replacement does not hold `c`, no `c` is left. */
  lemma {:induction false} ReplaceAllRemoves(s: string, c: char, rep: string)
    requires c !in rep
    ensures c !in ReplaceAll(s, c, rep)
  {
    if s != [] {
      ReplaceAllRemoves(s[1..], c, rep);
    }
  }

  /** A string without `c` is left as it is. */
  lemma {:induction false} ReplaceAllUnchanged(s: string, c: char, rep: string)
    requires c !in s
    ensures ReplaceAll(s, c, rep) == s
  {
    if s != [] {
      ReplaceAllUnchanged(s[1..], c, rep);
      assert s == [s[0]] + s[1..];
    }
  }

  /** A character that is neither replaced nor inserted occurs in the result exactly when it occurs in the input. */
  lemma {:induction false} ReplaceAllKeeps(s: string, c: char, rep: string, x: char)
    requires x != c && x !in rep
    ensures x in ReplaceAll(s, c, rep) <==> x in s
  {
    if s != [] {
      ReplaceAllKeeps(s[1..], c, rep, x);
      assert s == [s[0]] + s[1..];
    }
  }

  /** Replacing in a one-character string. */
  lemma ReplaceAllSingle(x: char, c: char, rep: string)
    ensures ReplaceAll([x], c, rep) == if x == c then rep else [x]
  {
    assert [x][1..] == [];
  }

  /** Replacing in a string with a known first character. */
  lemma ReplaceAllCons(x: char, s: string, c: char, rep: string)
    ensures ReplaceAll([x] + s, c, rep) == (if x == c then rep else [x]) + ReplaceAll(s, c, rep)
  {
    assert ([x] + s)[0] == x && ([x] + s)[1..] == s;
  }

  /** Replacing in a concatenation is replacing in each part. */
  lemma {:induction false} ReplaceAllConcat(a: string, b: string, c: char, rep: string)
    ensures ReplaceAll(a + b, c, rep) == ReplaceAll(a, c, rep) + ReplaceAll(b, c, rep)
  {
    if a == [] {
      assert a + b == b;
    } else {
      var t := a[1..];
      var head := if a[0] == c then rep else [a[0]];
      assert (a + b)[0] == a[0] && (a + b)[1..] == t + b;
      ReplaceAllConcat(t, b, c, rep);
      assert ReplaceAll(a + b, c, rep) == head + (ReplaceAll(t, c, rep) + ReplaceAll(b, c, rep));
    }
  }

  // ------------------------------------------------------------------ escapeHtml

  /** The three replacements of `escapeHtml`, in the source's order: `&` first. */
  function HtmlChain(s: string): string {
    ReplaceAll(ReplaceAll(ReplaceAll(s, '&', "&amp;"), '<', "&lt;"), '>', "&gt;")
  }

  /**
   * `escapeHtml(s)`: "" for a falsy argument (`null`, `undefined` or the
   * empty string), otherwise the replacement chain. The result never holds
   * a `<` or a `>`.
   */
  function EscapeHtml(s: Option<string>): (r: string)
    ensures s.None? || s == Some("") ==> r == ""
    ensures '<' !in r && '>' !in r
  {
    if s.None? || s.value == "" then ""
    else
      var amp := ReplaceAll(s.value, '&', "&amp;");
      var lt := ReplaceAll(amp, '<', "&lt;");
      ReplaceAllRemoves(amp, '<', "&lt;");
      ReplaceAllKeeps(lt, '>', "&gt;", '<');
      ReplaceAllRemoves(lt, '>', "&gt;");
      HtmlChain(s.value)
  }

  /** The entity one character becomes. */
  function HtmlEscapeChar(c: char): string {
    if c == '&' then "&amp;" else if c == '<' then "&lt;" else if c == '>' then "&gt;" else [c]
  }

  /** One-pass reference escaper: each character replaced by its entity, independently. */
  function HtmlEscapeEach(s: string): string {
    if s == [] then [] else HtmlEscapeChar(s[0]) + HtmlEscapeEach(s[1..])
  }

  /** Each step of the chain, and so the chain, works on a concatenation part by part. */
  lemma HtmlChainConcat(a: string, b: string)
    ensures HtmlChain(a + b) == HtmlChain(a) + HtmlChain(b)
  {
    var a1, b1 := ReplaceAll(a, '&', "&amp;"), ReplaceAll(b, '&', "&amp;");
    ReplaceAllConcat(a, b, '&', "&amp;");
    ReplaceAllConcat(a1, b1, '<', "&lt;");
    ReplaceAllConcat(ReplaceAll(a1, '<', "&lt;"), ReplaceAll(b1, '<', "&lt;"), '>', "&gt;");
  }

  /** On one character the chain gives that character's entity. */
  lemma HtmlChainChar(c: char)
    ensures HtmlChain([c]) == HtmlEscapeChar(c)
  {
    ReplaceAllSingle(c, '&', "&amp;");
    if c == '&' {
      ReplaceAllUnchanged("&amp;", '<', "&lt;");
      ReplaceAllUnchanged("&amp;", '>', "&gt;");
    } else {
      ReplaceAllSingle(c, '<', "&lt;");
      if c == '<' {
        ReplaceAllUnchanged("&lt;", '>', "&gt;");
      } else {
        ReplaceAllSingle(c, '>', "&gt;");
      }
    }
  }

  /**
   * The chain is the one-pass escaper: because `&` goes first, no entity
   * inserted by one step is escaped again by a later step.
   */
  lemma {:induction false} HtmlChainIsPerChar(s: string)
    ensures HtmlChain(s) == HtmlEscapeEach(s)
  {
    if s != [] {
      assert s == [s[0]] + s[1..];
      HtmlChainConcat([s[0]], s[1..]);
      HtmlChainChar(s[0]);
      HtmlChainIsPerChar(s[1..]);
    }
  }

  /** An HTML entity that `escapeHtml` writes starts at position `i` of `r`. */
  predicate EntityAt(r: string, i: nat)
    requires i < |r|
  {
    "&amp;" <= r[i..] || "&lt;" <= r[i..] || "&gt;" <= r[i..]
  }

  /** Every `&` of `r` starts an entity. */
  predicate AmpersandsAreEntities(r: string) {
    forall i :: 0 <= i < |r| && r[i] == '&' ==> EntityAt(r, i)
  }

  /** The one-pass escaper writes `&` only as the start of an entity. */
  lemma {:induction false} HtmlEscapeEachEntities(s: string)
    ensures AmpersandsAreEntities(HtmlEscapeEach(s))
  {
    if s != [] {
      var head, tail := HtmlEscapeChar(s[0]), HtmlEscapeEach(s[1..]);
      HtmlEscapeEachEntities(s[1..]);
      var r := head + tail;
      forall i | 0 <= i < |r| && r[i] == '&' ensures EntityAt(r, i) {
        if i < |head| {
          assert i == 0 && r[i..] == head + tail;
        } else {
          assert r[i..] == tail[i - |head|..];
        }
      }
    }
  }

  /**
   * Every `&` in the output of `escapeHtml` begins `&amp;`, `&lt;` or
   * `&gt;`: the escaper never leaves a bare ampersand and never escapes
   * the entities it inserted.
   */
  lemma EscapeHtmlAmpersands(s: Option<string>)
    ensures AmpersandsAreEntities(EscapeHtml(s))
  {
    if s.Some? && s.value != "" {
      HtmlChainIsPerChar(s.value);
      HtmlEscapeEachEntities(s.value);
    }
  }

  /** Text without `&`, `<` and `>` goes through `escapeHtml` unchanged. */
  lemma EscapeHtmlIdentityOnSafe(s: string)
    requires '&' !in s && '<' !in s && '>' !in s
    ensures EscapeHtml(Some(s)) == s
  {
    ReplaceAllUnchanged(s, '&', "&amp;");
    ReplaceAllUnchanged(s, '<', "&lt;");
    ReplaceAllUnchanged(s, '>', "&gt;");
  }

  /** Decoding of the three entities `escapeHtml` writes; every other character is read as itself. */
  function UnescapeHtml(r: string): string
    decreases |r|
  {
    if r == [] then []
    else if "&amp;" <= r then "&" + UnescapeHtml(r[5..])
    else if "&lt;" <= r then "<" + UnescapeHtml(r[4..])
    else if "&gt;" <= r then ">" + UnescapeHtml(r[4..])
    else [r[0]] + UnescapeHtml(r[1..])
  }

  /** Reading an entity, or a character that needs none, gives back that one character. */
  lemma UnescapeHtmlChar(c: char, tail: string)
    ensures UnescapeHtml(HtmlEscapeChar(c) + tail) == [c] + UnescapeHtml(tail)
  {
    var r := HtmlEscapeChar(c) + tail;
    if c == '&' {
      assert r[..5] == "&amp;" && r[5..] == tail;
    } else if c == '<' {
      assert r[1] == 'l' && r[..4] == "&lt;" && r[4..] == tail;
    } else if c == '>' {
      assert r[1] == 'g' && r[..4] == "&gt;" && r[4..] == tail;
    } else {
      assert r[0] == c && r[1..] == tail;
    }
  }

  /** Reading back what the one-pass escaper wrote gives the original text. */
  lemma {:induction false} HtmlEscapeEachRoundTrip(s: string)
    ensures UnescapeHtml(HtmlEscapeEach(s)) == s
  {
    if s != [] {
      HtmlEscapeEachRoundTrip(s[1..]);
      UnescapeHtmlChar(s[0], HtmlEscapeEach(s[1..]));
      assert s == [s[0]] + s[1..];
    }
  }

  /** Decoding the three entities in the output of `escapeHtml` gives back its input. */
  lemma EscapeHtmlRoundTrip(s: string)
    ensures UnescapeHtml(EscapeHtml(Some(s))) == s
  {
    if s != "" {
      HtmlChainIsPerChar(s);
      HtmlEscapeEachRoundTrip(s);
    }
  }

  // ------------------------------------------------------------------ escapeJs, as written

  /** The two replacements of `escapeJs`: `'` becomes `\'`, a line feed becomes `\n`. */
  function JsChain(s: string): string {
    ReplaceAll(ReplaceAll(s, '\'', "\\'"), '\n', "\\n")
  }

  /** `escapeJs(s)`: `(s || "")` then the chain. The result holds no line feed. */
  function EscapeJs(s: Option<string>): (r: string)
    ensures s.None? || s == Some("") ==> r == ""
    ensures '\n' !in r
  {
    ReplaceAllRemoves(ReplaceAll(s.GetOr(""), '\'', "\\'"), '\n', "\\n");
    JsChain(s.GetOr(""))
  }

  /** The escape one character becomes in `escapeJs`. */
  function JsEscapeChar(c: char): string {
    if c == '\'' then "\\'" else if c == '\n' then "\\n" else [c]
  }

  /** One-pass reference for `escapeJs`. */
  function JsEscapeEach(s: string): string {
    if s == [] then [] else JsEscapeChar(s[0]) + JsEscapeEach(s[1..])
  }

  /** The chain of `escapeJs` is the one-pass escaper. */
  lemma {:induction false} JsChainIsPerChar(s: string)
    ensures JsChain(s) == JsEscapeEach(s)
  {
    if s != [] {
      var c, rest := s[0], s[1..];
      assert s == [c] + rest;
      ReplaceAllConcat([c], rest, '\'', "\\'");
      ReplaceAllConcat(ReplaceAll([c], '\'', "\\'"), ReplaceAll(rest, '\'', "\\'"), '\n', "\\n");
      assert ReplaceAll(ReplaceAll([c], '\'', "\\'"), '\n', "\\n") == JsEscapeChar(c);
      JsChainIsPerChar(rest);
    }
  }

  /** Every `'` of `r` comes right after a backslash. */
  predicate QuotesBackslashed(r: string) {
    forall i :: 0 <= i < |r| && r[i] == '\'' ==> 0 < i && r[i - 1] == '\\'
  }

  /** Writing each piece with its quotes backslashed keeps them backslashed in the concatenation. */
  lemma QuotesBackslashedConcat(a: string, b: string)
    requires QuotesBackslashed(a) && QuotesBackslashed(b)
    ensures QuotesBackslashed(a + b)
  {
    var r := a + b;
    forall i | 0 <= i < |r| && r[i] == '\'' ensures 0 < i && r[i - 1] == '\\' {
      if i >= |a| {
        assert r[i] == b[i - |a|];
        if i - |a| > 0 {
          assert r[i - 1] == b[i - |a| - 1];
        }
      }
    }
  }

  /** The one-pass escaper of `escapeJs` puts a backslash before every quote. */
  lemma {:induction false} JsEscapeEachQuotes(s: string)
    ensures QuotesBackslashed(JsEscapeEach(s))
  {
    if s != [] {
      JsEscapeEachQuotes(s[1..]);
      QuotesBackslashedConcat(JsEscapeChar(s[0]), JsEscapeEach(s[1..]));
    }
  }

  /** Every `'` in the output of `escapeJs` is immediately preceded by a backslash. */
  lemma EscapeJsQuotes(s: Option<string>)
    ensures QuotesBackslashed(EscapeJs(s))
  {
    JsChainIsPerChar(s.GetOr(""));
    JsEscapeEachQuotes(s.GetOr(""));
  }

  /** Text without `'` and line feeds goes through `escapeJs` unchanged. */
  lemma EscapeJsIdentityOnSafe(s: string)
    requires '\'' !in s && '\n' !in s
    ensures EscapeJs(Some(s)) == s
  {
    ReplaceAllUnchanged(s, '\'', "\\'");
    ReplaceAllUnchanged(s, '\n', "\\n");
  }

  // ------------------------------------------------------------------ reading a JavaScript literal

  /** The character a JavaScript single-character escape `\c` stands for, if `c` is one the model reads. */
  function JsEscapeValue(c: char): Option<char> {
    if c == '\'' || c == '"' || c == '\\' then Some(c)
    else if c == 'n' then Some('\n')
    else if c == 'r' then Some('\r')
    else if c == 't' then Some('\t')
    else if c == 'b' then Some('\U{8}')
    else if c == 'f' then Some('\U{C}')
    else if c == 'v' then Some('\U{B}')
    else if '0' <= c <= '9' || c == 'x' || c == 'u' || c == '\n' || c == '\r' || c == '\U{2028}' || c == '\U{2029}' then None  // numeric escapes, line continuations
    else Some(c)  // any other escaped character stands for itself
  }

  /**
   * The string a JavaScript engine reads from `r` placed between two single
   * quotes, or None when `r` is not the body of one literal: an unescaped
   * `'` ends the literal early, a raw line feed or carriage return leaves
   * it unterminated, a final lone backslash escapes the closing quote. None
   * also covers the numeric escapes and line continuations, not modelled.
   */
  function ReadJsString(r: string): Option<string>
    decreases |r|
  {
    if r == [] then Some([])
    else if r[0] == '\\' then
      if |r| == 1 then None
      else
        match (JsEscapeValue(r[1]), ReadJsString(r[2..]))
        case (Some(c), Some(rest)) => Some([c] + rest)
        case _ => None
    else if r[0] == '\'' || r[0] == '\n' || r[0] == '\r' then None
    else
      match ReadJsString(r[1..])
      case Some(rest) => Some([r[0]] + rest)
      case None => None
  }

  /** A backslash before any line terminator is a line continuation, which the reader leaves unread. */
  lemma LineContinuationsUnread(rest: string)
    ensures forall c :: c in "\n\r\U{2028}\U{2029}" ==> ReadJsString(['\\', c] + rest) == None
  {
  }

  /**
   * `escapeJs` does not escape the backslash. A title `\'` comes out as
   * `\\'`: the engine reads an escaped backslash, and the quote then closes
   * the literal, so whatever follows in the title runs as code. The output
   * is not even a function of what it should show: a backslash followed by
   * `n` and a line feed escape alike.
   */
  lemma EscapeJsLeavesBackslashes()
    ensures EscapeJs(Some("\\'")) == "\\\\'"
    ensures ReadJsString("\\\\") == Some("\\")
    ensures ReadJsString("'") == None
    ensures ReadJsString(EscapeJs(Some("\\'"))) == None
    ensures EscapeJs(Some("\\n")) == EscapeJs(Some("\n"))
  {
    ReplaceAllUnchanged("\\n", '\'', "\\'");
    ReplaceAllUnchanged("\\n", '\n', "\\n");
    ReplaceAllUnchanged("\n", '\'', "\\'");
    ReplaceAllSingle('\n', '\n', "\\n");
    assert "\\'" == ['\\'] + "'";
    ReplaceAllCons('\\', "'", '\'', "\\'");
    ReplaceAllSingle('\'', '\'', "\\'");
    ReplaceAllUnchanged("\\\\'", '\n', "\\n");
    assert ReadJsString("'") == None;
    assert "\\\\"[2..] == "" && ReadJsString("") == Some("") && ['\\'] + "" == "\\";
  }

  // ------------------------------------------------------------------ escapeJs, corrected

  /** `escapeJs` with the backslash escaped first, then the quote, line feed and carriage return. */
  function JsCorrectedChain(s: string): string {
    ReplaceAll(ReplaceAll(ReplaceAll(ReplaceAll(s, '\\', "\\\\"), '\'', "\\'"), '\n', "\\n"), '\r', "\\r")
  }

  /** The corrected escaper, with `escapeJs`'s treatment of a falsy argument. */
  function EscapeJsCorrected(s: Option<string>): (r: string)
    ensures s.None? || s == Some("") ==> r == ""
    ensures '\n' !in r && '\r' !in r
  {
    var quoted := ReplaceAll(ReplaceAll(s.GetOr(""), '\\', "\\\\"), '\'', "\\'");
    var lf := ReplaceAll(quoted, '\n', "\\n");
    ReplaceAllRemoves(quoted, '\n', "\\n");
    ReplaceAllKeeps(lf, '\r', "\\r", '\n');
    ReplaceAllRemoves(lf, '\r', "\\r");
    JsCorrectedChain(s.GetOr(""))
  }

  /** The escape one character becomes in the corrected escaper. */
  function JsCorrectedChar(c: char): string {
    if c == '\\' then "\\\\" else if c == '\'' then "\\'" else if c == '\n' then "\\n" else if c == '\r' then "\\r" else [c]
  }

  /** One-pass reference for the corrected escaper. */
  function JsCorrectedEach(s: string): string {
    if s == [] then [] else JsCorrectedChar(s[0]) + JsCorrectedEach(s[1..])
  }

  /** Each step of the corrected chain, and so the chain, works on a concatenation part by part. */
  lemma JsCorrectedChainConcat(a: string, b: string)
    ensures JsCorrectedChain(a + b) == JsCorrectedChain(a) + JsCorrectedChain(b)
  {
    var a1, b1 := ReplaceAll(a, '\\', "\\\\"), ReplaceAll(b, '\\', "\\\\");
    ReplaceAllConcat(a, b, '\\', "\\\\");
    var a2, b2 := ReplaceAll(a1, '\'', "\\'"), ReplaceAll(b1, '\'', "\\'");
    ReplaceAllConcat(a1, b1, '\'', "\\'");
    var a3, b3 := ReplaceAll(a2, '\n', "\\n"), ReplaceAll(b2, '\n', "\\n");
    ReplaceAllConcat(a2, b2, '\n', "\\n");
    ReplaceAllConcat(a3, b3, '\r', "\\r");
  }

  /** On one character the corrected chain gives that character's escape. */
  lemma JsCorrectedChainChar(c: char)
    ensures JsCorrectedChain([c]) == JsCorrectedChar(c)
  {
    ReplaceAllSingle(c, '\\', "\\\\");
    if c == '\\' {
      ReplaceAllUnchanged("\\\\", '\'', "\\'");
      ReplaceAllUnchanged("\\\\", '\n', "\\n");
      ReplaceAllUnchanged("\\\\", '\r', "\\r");
    } else {
      ReplaceAllSingle(c, '\'', "\\'");
      if c == '\'' {
        ReplaceAllUnchanged("\\'", '\n', "\\n");
        ReplaceAllUnchanged("\\'", '\r', "\\r");
      } else {
        ReplaceAllSingle(c, '\n', "\\n");
        if c == '\n' {
          ReplaceAllUnchanged("\\n", '\r', "\\r");
        } else {
          ReplaceAllSingle(c, '\r', "\\r");
        }
      }
    }
  }

  /** The corrected chain is the one-pass escaper: the backslash goes first, so no inserted escape is escaped again. */
  lemma {:induction false} JsCorrectedChainIsPerChar(s: string)
    ensures JsCorrectedChain(s) == JsCorrectedEach(s)
  {
    if s != [] {
      assert s == [s[0]] + s[1..];
      JsCorrectedChainConcat([s[0]], s[1..]);
      JsCorrectedChainChar(s[0]);
      JsCorrectedChainIsPerChar(s[1..]);
    }
  }

  /** Reading back what the corrected one-pass escaper wrote gives the original text. */
  lemma {:induction false} JsCorrectedEachRoundTrip(s: string)
    ensures ReadJsString(JsCorrectedEach(s)) == Some(s)
  {
    if s != [] {
      var c, tail := s[0], JsCorrectedEach(s[1..]);
      var r := JsCorrectedChar(c) + tail;
      JsCorrectedEachRoundTrip(s[1..]);
      if c == '\\' {
        assert r[0] == '\\' && r[1] == '\\' && r[2..] == tail;
      } else if c == '\'' {
        assert r[0] == '\\' && r[1] == '\'' && r[2..] == tail;
        assert JsEscapeValue(r[1]) == Some('\'');
        assert ReadJsString(r) == Some([c] + s[1..]);
        assert [c] + s[1..] == s;
      } else if c == '\n' {
        assert r[0] == '\\' && r[1] == 'n' && r[2..] == tail;
      } else if c == '\r' {
        assert r[0] == '\\' && r[1] == 'r' && r[2..] == tail;
      } else {
        assert r[0] == c && r[1..] == tail;
      }
    }
  }

  /**
   * The corrected escaper does what `escapeJs` is for: placed between
   * single quotes, its output is one literal that reads back as the input.
   */
  lemma EscapeJsCorrectedRoundTrip(s: string)
    ensures ReadJsString(EscapeJsCorrected(Some(s))) == Some(s)
  {
    JsCorrectedChainIsPerChar(s);
    JsCorrectedEachRoundTrip(s);
  }
}
