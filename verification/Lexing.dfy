/** How the server reads predicate text: literals, comments, brackets and a top-level OR. */
module Lexing {
  /** Where the next character falls. The last three are outside text with one character remembered. */
  datatype Mode =
    | Quoted(c: char) | Escaped(c: char) | Line | Block | Star
    | Plain | Dash | Slash | Closing(c: char)

  predicate Outside(m: Mode) {
    m.Plain? || m.Dash? || m.Slash? || m.Closing?
  }

  /** The word being read: none, "o", "or", or some other identifier. */
  datatype Word = NoWord | O | Or | Other

  /** `sunk` once a bracket closed that was never opened; `loose` once an OR was read at depth zero. */
  datatype Lex = Lex(mode: Mode, depth: int, sunk: bool, word: Word, loose: bool)

  const START := Lex(Plain, 0, false, NoWord, false)

  predicate IsQuote(c: char) {
    c == '\'' || c == '"' || c == '`'
  }

  predicate IsIdent(c: char) {
    c == '_' || c == '$' || '0' <= c <= '9' || 'a' <= c <= 'z' || 'A' <= c <= 'Z' || c as int >= 0x80
  }

  function Extended(w: Word, c: char): Word {
    match w
    case NoWord => if c == 'o' || c == 'O' then O else Other
    case O => if c == 'r' || c == 'R' then Or else Other
    case Or => Other
    case Other => Other
  }

  /** The mode after a character outside literals and comments. */
  function Opened(c: char): Mode {
    if IsQuote(c) then Quoted(c)
    else if c == '-' then Dash
    else if c == '/' then Slash
    else if c == '#' then Line
    else Plain
  }

  function Structure(s: Lex, c: char): Lex {
    if IsIdent(c) then s.(mode := Plain, word := Extended(s.word, c))
    else
      var depth := if c == '(' then s.depth + 1 else if c == ')' then s.depth - 1 else s.depth;
      Lex(Opened(c), depth, s.sunk || depth < 0, NoWord, s.loose || (s.word == Or && s.depth == 0))
  }

  function Next(s: Lex, c: char): Lex {
    match s.mode
    case Quoted(q) => s.(mode := if c == '\\' then Escaped(q) else if c == q then Closing(q) else Quoted(q))
    case Escaped(q) => s.(mode := Quoted(q))
    case Line => s.(mode := if c == '\n' then Plain else Line)
    case Block => s.(mode := if c == '*' then Star else Block)
    case Star => s.(mode := if c == '/' then Plain else if c == '*' then Star else Block)
    case Closing(q) => if c == q then s.(mode := Quoted(q)) else Structure(s, c)
    case Dash => if c == '-' then s.(mode := Line) else Structure(s, c)
    case Slash => if c == '*' then s.(mode := Block) else Structure(s, c)
    case Plain => Structure(s, c)
  }

  function Read(text: string, s: Lex): Lex {
    if text == "" then s else Next(Read(text[..|text| - 1], s), text[|text| - 1])
  }

  /** A word left open by the end of the text is a word. */
  predicate Loose(s: Lex) {
    s.loose || (s.word == Or && s.depth == 0)
  }

  lemma {:induction false} ReadConcat(a: string, b: string, s: Lex)
    ensures Read(a + b, s) == Read(b, Read(a, s))
  {
    hide Next;
    if b == "" {
      assert a + b == a;
    } else {
      assert (a + b)[..|a + b| - 1] == a + b[..|b| - 1];
      ReadConcat(a, b[..|b| - 1], s);
    }
  }

  lemma ReadOne(c: char, s: Lex)
    ensures Read([c], s) == Next(s, c)
  {
    assert [c][..0] == "";
  }

  lemma ReadSnoc(text: string, i: nat, s: Lex)
    requires i < |text|
    ensures Read(text[..i + 1], s) == Next(Read(text[..i], s), text[i])
  {
    assert text[..i + 1][..i] == text[..i];
  }

  /** A literal is opened and closed by a quote. */
  lemma {:induction false} QuotesAreQuotes(text: string, s: Lex)
    requires (s.mode.Quoted? || s.mode.Escaped? || s.mode.Closing?) ==> IsQuote(s.mode.c)
    ensures var m := Read(text, s).mode; m.Quoted? || m.Escaped? || m.Closing? ==> IsQuote(m.c)
  {
    if text != "" {
      QuotesAreQuotes(text[..|text| - 1], s);
    }
  }

  /** Brackets that never close more than was opened and end level. */
  predicate Balanced(text: string) {
    var end := Read(text, START);
    !end.sunk && end.depth == 0
  }

  /** The text ends outside every literal and comment. */
  predicate Closed(text: string) {
    Outside(Read(text, START).mode)
  }

  /** Once a bracket has been closed too many times it stays so. */
  lemma {:induction false} SunkStays(text: string, i: nat, s: Lex)
    requires i <= |text|
    ensures Read(text[..i], s).sunk ==> Read(text, s).sunk
    ensures Read(text[..i], s).loose ==> Read(text, s).loose
  {
    if i < |text| {
      var front := text[..|text| - 1];
      SunkStays(front, i, s);
      assert front[..i] == text[..i];
    } else {
      assert text[..i] == text;
    }
  }

  function Deeper(s: Lex, k: int, before: bool): Lex {
    s.(depth := s.depth + k, loose := before)
  }

  lemma StructureDeeper(s: Lex, c: char, k: int, before: bool)
    requires k > 0 && !s.sunk && s.depth >= 0 && !Structure(s, c).sunk
    ensures Structure(Deeper(s, k, before), c) == Deeper(Structure(s, c), k, before)
    ensures Structure(s, c).depth >= 0
  {
  }

  lemma NextDeeper(s: Lex, c: char, k: int, before: bool)
    requires k > 0 && !s.sunk && s.depth >= 0 && !Next(s, c).sunk
    ensures Next(Deeper(s, k, before), c) == Deeper(Next(s, c), k, before)
    ensures Next(s, c).depth >= 0
  {
    if !Structure(s, c).sunk {
      StructureDeeper(s, c, k, before);
    }
    hide Structure;
  }

  /** Reading under k more brackets is the same reading, k deeper, with no OR at depth zero. */
  lemma {:induction false} ReadDeeper(text: string, k: int, before: bool)
    requires k > 0 && !Read(text, START).sunk
    ensures Read(text, Deeper(START, k, before)) == Deeper(Read(text, START), k, before)
    ensures Read(text, START).depth >= 0
  {
    hide Next, Deeper;
    if text != "" {
      var front := text[..|text| - 1];
      SunkStays(text, |front|, START);
      ReadDeeper(front, k, before);
      NextDeeper(Read(front, START), text[|text| - 1], k, before);
    }
  }
}
