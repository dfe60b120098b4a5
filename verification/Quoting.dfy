/** Quoted identifiers and literals, against the scan that skips them and the lexer that reads them. */
module Quoting {
  import opened Wrappers
  import opened Lexing

  function Replace(ch: char, from: char, into: string): string {
    if ch == from then into else [ch]
  }

  function ReplaceAll(s: string, from: char, into: string): string {
    if s == "" then "" else Replace(s[0], from, into) + ReplaceAll(s[1..], from, into)
  }

  /** Backslashes first: doubling the delimiter introduces none. */
  function QuoteIdent(s: string): string {
    "\"" + ReplaceAll(ReplaceAll(s, '\\', "\\\\"), '"', "\"\"") + "\""
  }

  function QuoteLiteral(s: string): string {
    "'" + ReplaceAll(ReplaceAll(s, '\\', "\\\\"), '\'', "''") + "'"
  }

  /** What one character becomes between delimiters c. */
  function Escape(ch: char, c: char): string {
    if ch == '\\' then "\\\\" else if ch == c then [c, c] else [ch]
  }

  function Body(s: string, c: char): string {
    if s == "" then "" else Escape(s[0], c) + Body(s[1..], c)
  }

  function Quote(s: string, c: char): string {
    [c] + Body(s, c) + [c]
  }

  lemma {:induction false} ReplaceConcat(a: string, b: string, from: char, into: string)
    ensures ReplaceAll(a + b, from, into) == ReplaceAll(a, from, into) + ReplaceAll(b, from, into)
  {
    hide Replace;
    if a == "" {
      assert a + b == b;
    } else {
      assert (a + b)[0] == a[0] && (a + b)[1..] == a[1..] + b;
      ReplaceConcat(a[1..], b, from, into);
    }
  }

  /** The two replacements in turn escape each character once. */
  lemma {:induction false} TwoReplacements(s: string, c: char)
    requires c != '\\'
    ensures ReplaceAll(ReplaceAll(s, '\\', ['\\', '\\']), c, [c, c]) == Body(s, c)
  {
    if s != "" {
      var rest := s[1..];
      TwoReplacements(rest, c);
      ReplaceFirst(s[0], c);
      hide Replace, Escape;
      ReplaceConcat(Replace(s[0], '\\', ['\\', '\\']), ReplaceAll(rest, '\\', ['\\', '\\']), c, [c, c]);
    }
  }

  lemma ReplaceFirst(ch: char, c: char)
    requires c != '\\'
    ensures ReplaceAll(Replace(ch, '\\', ['\\', '\\']), c, [c, c]) == Escape(ch, c)
  {
    assert [ch][1..] == "" && [ch, ch][1..] == [ch];
    assert ReplaceAll([ch], c, [c, c]) == Replace(ch, c, [c, c]) + "";
    assert ReplaceAll([ch, ch], c, [c, c]) == Replace(ch, c, [c, c]) + ReplaceAll([ch], c, [c, c]);
  }

  lemma QuotesAre(s: string)
    ensures QuoteIdent(s) == Quote(s, '"') && QuoteLiteral(s) == Quote(s, '\'')
  {
    TwoReplacements(s, '"');
    TwoReplacements(s, '\'');
    assert "\"\"" == ['"', '"'] && "''" == ['\'', '\''] && "\\\\" == ['\\', '\\'];
  }

  // ------------------------------------------------------------------- skipping

  /** Where the scan from k, inside a literal delimited by c, comes to rest. */
  function SkipTo(sql: string, k: nat, c: char): nat
    decreases |sql| - k
  {
    if k >= |sql| then k
    else if sql[k] == '\\' then SkipTo(sql, k + 2, c)
    else if sql[k] != c then SkipTo(sql, k + 1, c)
    else if k + 1 < |sql| && sql[k + 1] == c then SkipTo(sql, k + 2, c)
    else k
  }

  method Skip(sql: string, start: nat, c: char) returns (k: nat)
    ensures k == SkipTo(sql, start, c)
  {
    k := start;
    while k < |sql|
      invariant SkipTo(sql, k, c) == SkipTo(sql, start, c)
      decreases |sql| - k
    {
      if sql[k] == '\\' {
        k := k + 2;
        continue;
      }
      if sql[k] != c {
        k := k + 1;
        continue;
      }
      if k + 1 < |sql| && sql[k + 1] == c {
        k := k + 2;
        continue;
      }
      break;
    }
  }

  /** Over an escaped body the scan goes on, whatever the body holds. */
  lemma {:induction false} SkipsBody(pre: string, s: string, post: string, c: char)
    requires c != '\\'
    ensures SkipTo(pre + Body(s, c) + post, |pre|, c) == SkipTo(pre + Body(s, c) + post, |pre| + |Body(s, c)|, c)
    decreases s
  {
    hide SkipTo, Escape;
    if s != "" {
      var sql := pre + Body(s, c) + post;
      var (e, rest) := (Escape(s[0], c), Body(s[1..], c));
      assert sql == pre + e + (rest + post);
      SkipsEscape(pre, s[0], rest + post, c);
      assert sql == (pre + e) + rest + post;
      SkipsBody(pre + e, s[1..], post, c);
    }
  }

  lemma SkipsEscape(pre: string, ch: char, post: string, c: char)
    requires c != '\\'
    ensures SkipTo(pre + Escape(ch, c) + post, |pre|, c) ==
            SkipTo(pre + Escape(ch, c) + post, |pre| + |Escape(ch, c)|, c)
  {
    var (sql, e) := (pre + Escape(ch, c) + post, Escape(ch, c));
    assert sql[|pre|] == e[0] && (|e| == 2 ==> sql[|pre| + 1] == e[1]);
  }

  /** A quoted text is skipped to its own closing delimiter, unless the delimiter follows it. */
  lemma SkipsQuoted(pre: string, s: string, post: string, c: char)
    requires c != '\\' && (post != "" ==> post[0] != c)
    ensures SkipTo(pre + Quote(s, c) + post, |pre| + 1, c) == |pre| + |Quote(s, c)| - 1
  {
    hide SkipTo, Body;
    var sql := pre + Quote(s, c) + post;
    var end := |pre| + 1 + |Body(s, c)|;
    assert sql == (pre + [c]) + Body(s, c) + ([c] + post);
    SkipsBody(pre + [c], s, [c] + post, c);
    assert sql[end] == c && (end + 1 < |sql| ==> sql[end + 1] == post[0]);
    RestsAt(sql, end, c);
  }

  lemma RestsAt(sql: string, k: nat, c: char)
    requires k < |sql| && sql[k] == c && c != '\\' && !(k + 1 < |sql| && sql[k + 1] == c)
    ensures SkipTo(sql, k, c) == k
  {
  }

  /** And the server leaves the literal there and nowhere before, with the text around it untouched. */
  lemma {:induction false} BodyStaysInside(s: string, c: char, at: Lex)
    requires IsQuote(c) && at.mode == Quoted(c)
    ensures Read(Body(s, c), at) == at
  {
    if s == "" {
      assert Body(s, c) == "";
    } else {
      EscapeStaysInside(s[0], c, at);
      BodyStaysInside(s[1..], c, at);
      hide Read;
      ReadConcat(Escape(s[0], c), Body(s[1..], c), at);
    }
  }

  lemma EscapeStaysInside(ch: char, c: char, at: Lex)
    requires IsQuote(c) && at.mode == Quoted(c)
    ensures Read(Escape(ch, c), at) == at
  {
    hide Read;
    if ch == '\\' || ch == c {
      assert Escape(ch, c) == [ch] + [ch];
      ReadConcat([ch], [ch], at);
      ReadOne(ch, at);
      ReadOne(ch, Next(at, ch));
    } else {
      ReadOne(ch, at);
    }
  }

  /** Between tokens, a quoted text is one token: it changes no depth, opens no comment and is no OR. */
  lemma QuotedIsOneToken(s: string, c: char, at: Lex)
    requires IsQuote(c) && at.mode == Plain && at.word == NoWord && at.depth >= 0 && !at.sunk
    ensures Read(Quote(s, c), at) == at.(mode := Closing(c))
  {
    hide Read;
    ReadConcat([c] + Body(s, c), [c], at);
    ReadConcat([c], Body(s, c), at);
    ReadOne(c, at);
    BodyStaysInside(s, c, at.(mode := Quoted(c)));
    ReadOne(c, at.(mode := Quoted(c)));
  }

  // ------------------------------------------------------------------- reading back

  /** What an escape stands for, for the escapes a C-style lexer knows. */
  function Unescaped(ch: char): char {
    if ch == 'n' then '\n' else if ch == 't' then '\t' else if ch == 'r' then '\r' else if ch == '0' then '\0' else ch
  }

  /** The content of a literal delimited by c. */
  function Content(body: string, c: char): string {
    if body == "" then ""
    else if body[0] == '\\' && |body| > 1 then [Unescaped(body[1])] + Content(body[2..], c)
    else if body[0] == c && |body| > 1 && body[1] == c then [c] + Content(body[2..], c)
    else [body[0]] + Content(body[1..], c)
  }

  /** Reading back what was quoted gives the text that was quoted. */
  lemma {:induction false} QuoteRoundTrip(s: string, c: char)
    requires IsQuote(c)
    ensures Content(Body(s, c), c) == s
  {
    if s != "" {
      var rest := Body(s[1..], c);
      QuoteRoundTrip(s[1..], c);
      var b := Escape(s[0], c) + rest;
      if s[0] == '\\' || s[0] == c {
        assert b[0] == s[0] && b[1] == s[0] && b[2..] == rest;
      } else {
        assert b[0] == s[0] && b[1..] == rest;
      }
      assert s == [s[0]] + s[1..];
    }
  }
}
