/**
  Writing a conjunction: which conjuncts are bracketed, and what the whole clause
  reads as.
 */
module Conjunct {
  import opened Wrappers
  import opened Lexing

  // ------------------------------------------------------- what the check looks for

  /** What comes first: a comment or a semicolon, or a bracket closed too many times. */
  datatype Verdict = Undecided | Stopped | Sunk

  datatype Watched = Watched(lex: Lex, verdict: Verdict, marks: nat)

  /** Whether c, read in this state, is text outside literals and comments. */
  predicate IsStructure(s: Lex, c: char) {
    match s.mode
    case Plain => true
    case Dash => c != '-'
    case Slash => c != '*'
    case Closing(q) => c != q
    case _ => false
  }

  function Note(w: Watched, c: char): Watched {
    var next := Next(w.lex, c);
    if w.verdict != Undecided then w.(lex := next)
    else if IsStructure(w.lex, c) then
      Watched(next, if next.sunk then Sunk else if c == '#' || c == ';' then Stopped else Undecided,
              if c == '?' then w.marks + 1 else w.marks)
    else w.(lex := next, verdict := if next.mode.Line? || next.mode.Block? then Stopped else Undecided)
  }

  function Watch(text: string): Watched {
    if text == "" then Watched(START, Undecided, 0) else Note(Watch(text[..|text| - 1]), text[|text| - 1])
  }

  /** A conjunct has to be bracketed: it could bind something other than itself. */
  predicate Escapes(text: string, args: nat) {
    var w := Watch(text);
    match w.verdict
    case Stopped => true
    case Sunk => false
    case Undecided => !Outside(w.lex.mode) || w.marks > args || (Loose(w.lex) && w.lex.depth == 0)
  }

  lemma {:induction false} WatchReads(text: string)
    ensures Watch(text).lex == Read(text, START)
  {
    hide Next, IsStructure;
    if text != "" {
      WatchReads(text[..|text| - 1]);
    }
  }

  lemma WatchSnoc(text: string, i: nat)
    requires i < |text|
    ensures Watch(text[..i + 1]) == Note(Watch(text[..i]), text[i])
  {
    assert text[..i + 1][..i] == text[..i];
  }

  /** A decided verdict stays. */
  lemma {:induction false} VerdictStays(text: string, i: nat)
    requires i <= |text| && Watch(text[..i]).verdict != Undecided
    ensures Watch(text).verdict == Watch(text[..i]).verdict
  {
    hide Next, IsStructure;
    if i < |text| {
      var front := text[..|text| - 1];
      assert front[..i] == text[..i];
      VerdictStays(front, i);
    } else {
      assert text[..i] == text;
    }
  }

  // ------------------------------------------------------------------- the scan

  /** A byte that can be part of a word. */
  predicate WordByte(c: char) {
    || c == '_' || c == '$' || c as int >= 0x80
    || ('0' <= c <= '9') || ('A' <= c <= 'Z') || ('a' <= c <= 'z')
  }

  predicate IdentByte(sql: string, i: int) {
    0 <= i < |sql| && WordByte(sql[i])
  }

  function Upper(c: char): char {
    if 'a' <= c <= 'z' then (c as int - 32) as char else c
  }

  /** The two-letter keyword stands alone at i. */
  predicate OrAt(sql: string, i: int)
    requires 0 <= i
  {
    && i + 2 <= |sql| && Upper(sql[i]) == 'O' && Upper(sql[i + 1]) == 'R'
    && !IdentByte(sql, i - 1) && !IdentByte(sql, i + 2)
  }

  /** Between two tokens: no literal, comment opener or decision is pending at i. */
  ghost predicate Between(sql: string, i: nat, depth: int, loose: bool, marks: nat)
    requires i <= |sql|
  {
    var w := Watch(sql[..i]);
    && w.verdict == Undecided && Outside(w.lex.mode) && !w.lex.sunk && w.lex.depth == depth >= 0 && w.marks == marks
    && (i < |sql| ==> IsStructure(w.lex, sql[i]))
    && (w.lex.word == NoWord <==> !IdentByte(sql, i - 1))
    && (w.lex.word == O && depth == 0 ==> !(i < |sql| && Upper(sql[i]) == 'R' && !IdentByte(sql, i + 1)))
    && loose == (w.lex.loose || (w.lex.word == Or && depth == 0 && !IdentByte(sql, i)))
  }

  /** Inside a literal that was opened between two tokens. */
  ghost predicate Within(sql: string, k: nat, c: char, depth: int, loose: bool, marks: nat)
    requires k <= |sql|
  {
    var w := Watch(sql[..k]);
    && w.verdict == Undecided && w.lex.mode == Quoted(c) && !w.lex.sunk && w.lex.depth == depth >= 0 && w.marks == marks
    && w.lex.word == NoWord && w.lex.loose == loose
  }

  lemma NoteStructure(w: Watched, c: char)
    requires w.verdict == Undecided && IsStructure(w.lex, c)
    ensures var next := Structure(w.lex, c);
      Note(w, c) == Watched(next, if next.sunk then Sunk else if c == '#' || c == ';' then Stopped else Undecided,
                            if c == '?' then w.marks + 1 else w.marks)
  {
    hide Structure;
  }

  /** An ordinary character: not a quote, a comment opener, a semicolon or a bracket closed too many times. */
  lemma PlainStep(sql: string, i: nat, depth: int, loose: bool, marks: nat)
    requires i < |sql| && Between(sql, i, depth, loose, marks)
    requires var c := sql[i];
      && !IsQuote(c) && c != '#' && c != ';' && c != '(' && c != ')'
      && !(c == '-' && i + 1 < |sql| && sql[i + 1] == '-') && !(c == '/' && i + 1 < |sql| && sql[i + 1] == '*')
      && !(depth == 0 && OrAt(sql, i))
    ensures Between(sql, i + 1, depth, loose, if sql[i] == '?' then marks + 1 else marks)
  {
    hide Watch, Note;
    WatchSnoc(sql, i);
    NoteStructure(Watch(sql[..i]), sql[i]);
  }

  lemma BracketStep(sql: string, i: nat, depth: int, loose: bool, marks: nat)
    requires i < |sql| && Between(sql, i, depth, loose, marks) && (sql[i] == '(' || sql[i] == ')')
    ensures var d := if sql[i] == '(' then depth + 1 else depth - 1;
      if d < 0 then Watch(sql).verdict == Sunk else Between(sql, i + 1, d, loose, marks)
  {
    hide Watch, Note;
    WatchSnoc(sql, i);
    NoteStructure(Watch(sql[..i]), sql[i]);
    if Watch(sql[..i + 1]).verdict != Undecided {
      VerdictStays(sql, i + 1);
    }
  }

  /** The keyword itself: two characters at once. */
  lemma OrStep(sql: string, i: nat, loose: bool, marks: nat)
    requires i < |sql| && Between(sql, i, 0, loose, marks) && OrAt(sql, i)
    ensures Between(sql, i + 2, 0, true, marks)
  {
    hide Watch, Note;
    WatchSnoc(sql, i);
    NoteStructure(Watch(sql[..i]), sql[i]);
    WatchSnoc(sql, i + 1);
    NoteStructure(Watch(sql[..i + 1]), sql[i + 1]);
  }

  lemma StopStep(sql: string, i: nat, depth: int, loose: bool, marks: nat)
    requires i < |sql| && Between(sql, i, depth, loose, marks)
    requires var c := sql[i];
      || c == '#' || c == ';' || (c == '-' && i + 1 < |sql| && sql[i + 1] == '-')
      || (c == '/' && i + 1 < |sql| && sql[i + 1] == '*')
    ensures Watch(sql).verdict == Stopped
  {
    hide Watch, Note;
    WatchSnoc(sql, i);
    NoteStructure(Watch(sql[..i]), sql[i]);
    if sql[i] == '#' || sql[i] == ';' {
      VerdictStays(sql, i + 1);
    } else {
      WatchSnoc(sql, i + 1);
      CommentOpens(Watch(sql[..i + 1]), sql[i + 1]);
      VerdictStays(sql, i + 2);
    }
  }

  lemma CommentOpens(w: Watched, c: char)
    requires w.verdict == Undecided && ((w.lex.mode == Dash && c == '-') || (w.lex.mode == Slash && c == '*'))
    ensures Note(w, c).verdict == Stopped
  {
  }

  lemma QuoteOpens(sql: string, i: nat, depth: int, loose: bool, marks: nat)
    requires i < |sql| && Between(sql, i, depth, loose, marks) && IsQuote(sql[i])
    ensures Within(sql, i + 1, sql[i], depth, loose, marks)
  {
    hide Watch, Note;
    WatchSnoc(sql, i);
    NoteStructure(Watch(sql[..i]), sql[i]);
  }

  /** Inside a literal: an escape, a doubled delimiter, the end, or text. */
  lemma QuoteStep(sql: string, k: nat, c: char, depth: int, loose: bool, marks: nat)
    requires k < |sql| && Within(sql, k, c, depth, loose, marks) && IsQuote(c)
    ensures sql[k] == '\\' ==>
              if k + 1 < |sql| then Within(sql, k + 2, c, depth, loose, marks)
              else Watch(sql).verdict == Undecided && !Outside(Watch(sql).lex.mode)
    ensures sql[k] != '\\' && sql[k] != c ==> Within(sql, k + 1, c, depth, loose, marks)
    ensures sql[k] == c && k + 1 < |sql| && sql[k + 1] == c ==> Within(sql, k + 2, c, depth, loose, marks)
    ensures sql[k] == c && !(k + 1 < |sql| && sql[k + 1] == c) ==> Between(sql, k + 1, depth, loose, marks)
  {
    hide Watch;
    WatchSnoc(sql, k);
    if k + 1 < |sql| {
      WatchSnoc(sql, k + 1);
    } else {
      assert sql[..k + 1] == sql;
    }
  }

  /** From just inside a literal to its closing delimiter, or past the end when there is none. */
  method SkipQuoted(sql: string, start: nat, c: char, ghost depth: int, ghost loose: bool, ghost marks: nat)
    returns (k: nat)
    requires start <= |sql| && IsQuote(c) && Within(sql, start, c, depth, loose, marks)
    ensures k >= start
    ensures k < |sql| ==> sql[k] == c && Between(sql, k + 1, depth, loose, marks)
    ensures k >= |sql| ==> Watch(sql).verdict == Undecided && !Outside(Watch(sql).lex.mode)
  {
    hide Within, Between, Watch;
    k := start;
    while k < |sql|
      invariant k >= start
      invariant k <= |sql| ==> Within(sql, k, c, depth, loose, marks)
      invariant k > |sql| ==> Watch(sql).verdict == Undecided && !Outside(Watch(sql).lex.mode)
      decreases |sql| - k
    {
      QuoteStep(sql, k, c, depth, loose, marks);
      if sql[k] == '\\' {
        k := k + 2;
        continue;
      }
      if sql[k] != c {
        k := k + 1;
        continue;
      }
      if k + 1 < |sql| && sql[k + 1] == c {
        k := k + 2;
        continue;
      }
      break;
    }
    if k == |sql| {
      WithinEnd(sql, c, depth, loose, marks);
    }
  }

  lemma WithinEnd(sql: string, c: char, depth: int, loose: bool, marks: nat)
    requires Within(sql, |sql|, c, depth, loose, marks)
    ensures Watch(sql).verdict == Undecided && !Outside(Watch(sql).lex.mode)
  {
    assert sql[..|sql|] == sql;
  }

  lemma ScanEnds(sql: string, args: nat, depth: int, loose: bool, marks: nat)
    requires Between(sql, |sql|, depth, loose, marks)
    ensures Escapes(sql, args) <==> marks > args || (loose && depth == 0)
  {
    assert sql[..|sql|] == sql;
    hide Watch;
  }

  lemma ScanStarts(sql: string)
    ensures Between(sql, 0, 0, false, 0)
  {
    assert sql[..0] == "";
  }

  /** The check itself, byte by byte. */
  method EscapesConjunct(sql: string, args: nat) returns (r: bool)
    ensures r <==> Escapes(sql, args)
  {
    hide Between, Within, Watch, OrAt, IsIdent, WordByte;
    var depth, loose, marks := 0, false, 0;
    var i := 0;
    ScanStarts(sql);
    while i < |sql|
      invariant 0 <= i <= |sql| && Between(sql, i, depth, loose, marks)
      decreases |sql| - i
    {
      var c := sql[i];
      OrNeedsO(sql, i);
      if c == '\'' || c == '"' || c == '`' {
        QuoteOpens(sql, i, depth, loose, marks);
        var k := SkipQuoted(sql, i + 1, c, depth, loose, marks);
        if k >= |sql| {
          return true;
        }
        i := k + 1;
      } else if c == '(' {
        BracketStep(sql, i, depth, loose, marks);
        depth := depth + 1;
        i := i + 1;
      } else if c == ')' {
        BracketStep(sql, i, depth, loose, marks);
        depth := depth - 1;
        if depth < 0 {
          return false;
        }
        i := i + 1;
      } else if c == '#' || c == ';' || (c == '-' && i + 1 < |sql| && sql[i + 1] == '-')
                || (c == '/' && i + 1 < |sql| && sql[i + 1] == '*') {
        StopStep(sql, i, depth, loose, marks);
        return true;
      } else if (c == 'o' || c == 'O') && depth == 0 && OrAt(sql, i) {
        OrStep(sql, i, loose, marks);
        loose := true;
        i := i + 2;
      } else {
        PlainStep(sql, i, depth, loose, marks);
        if c == '?' {
          marks := marks + 1;
        }
        i := i + 1;
      }
    }
    ScanEnds(sql, args, depth, loose, marks);
    return marks > args || (loose && depth == 0);
  }

  lemma OrNeedsO(sql: string, i: nat)
    requires i < |sql|
    ensures OrAt(sql, i) ==> i + 2 <= |sql| && (sql[i] == 'o' || sql[i] == 'O')
  {
  }

  // ------------------------------------------------------------- writing the clause

  /** A predicate as it renders: its text and how many arguments it binds. */
  datatype Fragment = Fragment(text: string, args: nat)

  const AND := " AND "

  function Rendered(f: Fragment, bracket: bool): string {
    if bracket && Escapes(f.text, f.args) then "(" + f.text + ")" else f.text
  }

  function Clause(fragments: seq<Fragment>, bracket: bool): string {
    if fragments == [] then ""
    else if |fragments| == 1 then Rendered(fragments[0], bracket)
    else Clause(fragments[..|fragments| - 1], bracket) + AND + Rendered(fragments[|fragments| - 1], bracket)
  }

  /** A lone conjunct is written as it is; there is nothing beside it to reassociate. */
  method WriteAnd(fragments: seq<Fragment>) returns (out: string)
    ensures out == Clause(fragments, |fragments| > 1)
  {
    out := "";
    var bracket := |fragments| > 1;
    for i := 0 to |fragments|
      invariant out == Clause(fragments[..i], bracket)
    {
      assert fragments[..i + 1][..i] == fragments[..i];
      hide Escapes;
      if i > 0 {
        out := out + AND;
      }
      var f := fragments[i];
      var escapes := EscapesConjunct(f.text, f.args);
      if bracket && escapes {
        out := out + ("(" + f.text + ")");
      } else {
        out := out + f.text;
      }
    }
    assert fragments[..|fragments|] == fragments;
  }

  // ------------------------------------------------------------ what the clause reads as

  /** Back at the top: outside, level, and with no OR of its own. */
  predicate Settled(s: Lex) {
    Outside(s.mode) && s.depth == 0 && !s.sunk && !Loose(s)
  }

  predicate Clean(text: string) {
    Balanced(text) && Closed(text)
  }

  lemma {:induction false} SunkVerdict(text: string)
    ensures Watch(text).verdict == Sunk ==> Watch(text).lex.sunk
  {
    if text != "" {
      SunkVerdict(text[..|text| - 1]);
    }
  }

  lemma ReadCons(c: char, rest: string, s: Lex)
    ensures Read([c] + rest, s) == Read(rest, Next(s, c))
  {
    hide Next, Read;
    ReadConcat([c], rest, s);
    ReadOne(c, s);
  }

  lemma SpaceStartsOver(s: Lex)
    requires Settled(s) && (s.mode.Closing? ==> IsQuote(s.mode.c))
    ensures Next(s, ' ') == START
  {
  }

  /** A word that is not OR, and a space after it. */
  lemma AndIsAWord()
    ensures Read("AND ", START) == START
  {
    var other := START.(word := Other);
    assert Next(START, 'A') == other && Next(other, 'N') == other && Next(other, 'D') == other;
    assert Next(other, ' ') == START;
    hide Read, Next;
    assert "AND " == ['A'] + (['N'] + (['D'] + ([' '] + "")));
    ReadCons('A', ['N'] + (['D'] + ([' '] + "")), START);
    ReadCons('N', ['D'] + ([' '] + ""), other);
    ReadCons('D', [' '] + "", other);
    ReadCons(' ', "", other);
    ReadNothing(START);
  }

  /** After a settled text, " AND " starts over. */
  lemma AndStartsOver(s: Lex)
    requires Settled(s) && (s.mode.Closing? ==> IsQuote(s.mode.c))
    ensures Read(AND, s) == START
  {
    hide Read, Next, Settled;
    SpaceStartsOver(s);
    assert AND == [' '] + "AND ";
    ReadCons(' ', "AND ", s);
    AndIsAWord();
  }

  lemma ReadNothing(s: Lex)
    ensures Read("", s) == s
  {
  }

  lemma ReadBracketed(text: string)
    requires !Read(text, START).sunk
    ensures Read("(" + text, START) == Deeper(Read(text, START), 1, false)
  {
    hide Read;
    ReadCons('(', text, START);
    assert "(" + text == ['('] + text;
    assert Next(START, '(') == Deeper(START, 1, false);
    ReadDeeper(text, 1, false);
  }

  /** A clean conjunct, as written, leaves the reader where it found it. */
  lemma ConjunctSettles(f: Fragment)
    requires Clean(f.text)
    ensures var s := Read(Rendered(f, true), START); Settled(s) && (s.mode.Closing? ==> IsQuote(s.mode.c))
  {
    hide Read, Watch;
    QuotesAreQuotes(f.text, START);
    if Escapes(f.text, f.args) {
      ReadBracketed(f.text);
      ReadConcat("(" + f.text, ")", START);
      ReadOne(')', Read("(" + f.text, START));
    } else {
      WatchReads(f.text);
      SunkVerdict(f.text);
    }
  }

  /** Everything before the i-th conjunct. */
  function Before(fragments: seq<Fragment>, i: nat): string
    requires i < |fragments|
  {
    if i == 0 then "" else Clause(fragments[..i], true) + AND
  }

  lemma {:induction false} ClauseSettles(fragments: seq<Fragment>)
    requires fragments != [] && forall i :: 0 <= i < |fragments| ==> Clean(fragments[i].text)
    ensures var s := Read(Clause(fragments, true), START); Settled(s) && (s.mode.Closing? ==> IsQuote(s.mode.c))
  {
    hide Read, Settled, Clean, Rendered;
    var last := fragments[|fragments| - 1];
    ConjunctSettles(last);
    if |fragments| > 1 {
      var front := fragments[..|fragments| - 1];
      ClauseSettles(front);
      AndStartsOver(Read(Clause(front, true), START));
      ReadConcat(Clause(front, true), AND, START);
      ReadConcat(Clause(front, true) + AND, Rendered(last, true), START);
    }
  }

  /**
    Clean conjuncts stay apart: the clause is well formed, each begins at depth zero outside every
    literal and comment, and where there are several no OR of theirs is left at depth zero.
   */
  lemma ConjunctsStayApart(fragments: seq<Fragment>)
    requires fragments != [] && forall i :: 0 <= i < |fragments| ==> Clean(fragments[i].text)
    ensures var out := Clause(fragments, |fragments| > 1);
      Clean(out) && (|fragments| > 1 ==> !Loose(Read(out, START)))
    ensures forall i :: 0 <= i < |fragments| ==> Read(Before(fragments, i), START) == START
  {
    LoneIsItself(fragments[0]);
    hide Read, Clean, Clause;
    if |fragments| == 1 {
      assert fragments == [fragments[0]];
    } else {
      ClauseSettles(fragments);
      SettledIsClean(Clause(fragments, true));
    }
    forall i | 0 <= i < |fragments| ensures Read(Before(fragments, i), START) == START {
      if i == 0 {
        ReadNothing(START);
      } else {
        ClauseSettles(fragments[..i]);
        AndStartsOver(Read(Clause(fragments[..i], true), START));
        ReadConcat(Clause(fragments[..i], true), AND, START);
      }
    }
  }

  lemma LoneIsItself(f: Fragment)
    ensures Clause([f], false) == f.text
  {
  }

  lemma SettledIsClean(text: string)
    requires Settled(Read(text, START))
    ensures Clean(text)
  {
    hide Read;
  }

  // -------------------------------------------------- when a conjunct can be trusted

  /** Beside g, the clause is malformed or g begins at depth zero, outside, with no loose OR. */
  predicate Honest(f: Fragment, g: Fragment) {
    var before := Rendered(f, true) + AND;
    var out := before + Rendered(g, true);
    Clean(out) ==> Outside(Read(before, START).mode) && Read(before, START).depth == 0 && !Loose(Read(out, START))
  }

  /** What takes back a reader stranded inside f: clean by itself, and a way out from where f leaves it. */
  function Rescue(m: Mode): string {
    match m
    case Quoted(c) => [c, ')', '/', '*', c, '*', '/']
    case Line => "(\n)"
    case _ => "(*/)"
  }

  lemma RescueIsClean(m: Mode)
    requires m.Line? || m.Block? || (m.Quoted? && IsQuote(m.c))
    ensures Clean(Rescue(m)) && !Escapes(Rescue(m), 0)
  {
    match m
    case Quoted(c) => RescueQuoted(c);
    case Line => RescueLine();
    case Block => RescueBlock();
    case _ =>
  }

  lemma WatchedText(text: string, w: Watched)
    requires Watch(text) == w && w.verdict == Undecided && w.marks == 0 && Settled(w.lex)
    ensures Clean(text) && !Escapes(text, 0)
  {
    hide Watch, Read;
    WatchReads(text);
  }

  lemma WatchNext(front: string, c: char, w: Watched)
    requires Watch(front) == w
    ensures Watch(front + [c]) == Note(w, c)
  {
    assert (front + [c])[..|front|] == front;
  }

  /** The states a literal, its doubled-up content and a stray comment end go through. */
  lemma QuotedNotes(c: char)
    requires IsQuote(c)
    ensures var (w, q) := (Watched(START, Undecided, 0), Watched(START.(mode := Quoted(c)), Undecided, 0));
      && Note(w, c) == q && Note(q, ')') == q && Note(q, '/') == q && Note(q, '*') == q
      && Note(q, c) == Watched(START.(mode := Closing(c)), Undecided, 0)
      && Note(Watched(START.(mode := Closing(c)), Undecided, 0), '*') == w
      && Note(w, '/') == Watched(START.(mode := Slash), Undecided, 0)
  {
  }

  lemma RescueQuoted(c: char)
    requires IsQuote(c)
    ensures Clean(Rescue(Quoted(c))) && !Escapes(Rescue(Quoted(c)), 0)
  {
    var w := Watched(START, Undecided, 0);
    var q := Watched(START.(mode := Quoted(c)), Undecided, 0);
    assert Watch("") == w;
    QuotedNotes(c);
    hide Watch, Escapes, Clean, Note;
    var t := [c, ')', '/', '*', c];
    assert Watch(t) == Note(q, c) by {
      WatchNext("", c, w);
      WatchNext("" + [c], ')', q);
      WatchNext("" + [c] + [')'], '/', q);
      WatchNext("" + [c] + [')'] + ['/'], '*', q);
      WatchNext("" + [c] + [')'] + ['/'] + ['*'], c, q);
      assert t == "" + [c] + [')'] + ['/'] + ['*'] + [c];
    }
    WatchNext(t, '*', Note(q, c));
    WatchNext(t + ['*'], '/', w);
    assert Rescue(Quoted(c)) == t + ['*'] + ['/'];
    WatchedText(Rescue(Quoted(c)), Watched(START.(mode := Slash), Undecided, 0));
  }

  lemma RescueLine()
    ensures Clean(Rescue(Line)) && !Escapes(Rescue(Line), 0)
  {
    var w := Watched(START, Undecided, 0);
    assert Watch("") == w;
    hide Watch, Escapes, Clean;
    WatchNext("", '(', w);
    var w1 := Watched(START.(depth := 1), Undecided, 0);
    WatchNext([] + ['('], '\n', w1);
    WatchNext([] + ['('] + ['\n'], ')', w1);
    assert Rescue(Line) == [] + ['('] + ['\n'] + [')'];
    WatchedText(Rescue(Line), w);
  }

  lemma RescueBlock()
    ensures Clean(Rescue(Block)) && !Escapes(Rescue(Block), 0)
  {
    var w := Watched(START, Undecided, 0);
    assert Watch("") == w;
    hide Watch, Escapes, Clean;
    WatchNext("", '(', w);
    var w1 := Watched(START.(depth := 1), Undecided, 0);
    WatchNext([] + ['('], '*', w1);
    WatchNext([] + ['('] + ['*'], '/', w1);
    WatchNext([] + ['('] + ['*'] + ['/'], ')', w1.(lex := w1.lex.(mode := Slash)));
    assert Rescue(Block) == [] + ['('] + ['*'] + ['/'] + [')'];
    WatchedText(Rescue(Block), w);
  }

  /** A reader inside a literal or comment of f stays there through the bracket and the " AND ". */
  lemma StrandedThroughAnd(s: Lex)
    requires !Outside(s.mode) && (s.mode.Quoted? || s.mode.Escaped? ==> IsQuote(s.mode.c))
    ensures var m := if s.mode.Escaped? then Quoted(s.mode.c) else if s.mode.Star? then Block else s.mode;
      Read(")" + AND, s) == s.(mode := m)
  {
    hide Read;
    var m := if s.mode.Escaped? then Quoted(s.mode.c) else if s.mode.Star? then Block else s.mode;
    var t := s.(mode := m);
    assert Next(s, ')') == t && Next(t, ' ') == t && Next(t, 'A') == t && Next(t, 'N') == t && Next(t, 'D') == t;
    hide Next;
    assert ")" + AND == [')'] + ([' '] + (['A'] + (['N'] + (['D'] + ([' '] + "")))));
    ReadCons(')', [' '] + (['A'] + (['N'] + (['D'] + ([' '] + "")))), s);
    ReadCons(' ', ['A'] + (['N'] + (['D'] + ([' '] + ""))), t);
    ReadCons('A', ['N'] + (['D'] + ([' '] + "")), t);
    ReadCons('N', ['D'] + ([' '] + ""), t);
    ReadCons('D', [' '] + "", t);
    ReadCons(' ', "", t);
    ReadNothing(t);
  }

  /** From inside, at depth one, the rescue ends outside at depth zero. */
  lemma RescueLands(s: Lex)
    requires s.mode.Line? || s.mode.Block? || (s.mode.Quoted? && IsQuote(s.mode.c))
    requires s.depth == 1 && !s.sunk
    ensures var e := Read(Rescue(s.mode), s); Outside(e.mode) && e.depth == 0 && !e.sunk
  {
    match s.mode
    case Quoted(c) => LandQuoted(s, c);
    case Line => LandLine(s);
    case Block => LandBlock(s);
    case _ =>
  }

  lemma LandQuoted(s: Lex, c: char)
    requires s.mode == Quoted(c) && IsQuote(c) && s.depth == 1 && !s.sunk
    ensures var e := Read(Rescue(s.mode), s); Outside(e.mode) && e.depth == 0 && !e.sunk
  {
    hide Read;
    var s1 := Next(s, c);
    var s2 := Next(s1, ')');
    var s3 := Next(s2, '/');
    var s4 := Next(s3, '*');
    var s5 := Next(s4, c);
    var s6 := Next(s5, '*');
    var s7 := Next(s6, '/');
    assert s4.mode == Block && s4.depth == 0 && !s4.sunk;
    assert Outside(s7.mode) && s7.depth == 0 && !s7.sunk;
    hide Next;
    assert Rescue(s.mode) == [c] + ([')'] + (['/'] + (['*'] + ([c] + (['*'] + (['/'] + ""))))));
    ReadCons(c, [')'] + (['/'] + (['*'] + ([c] + (['*'] + (['/'] + ""))))), s);
    ReadCons(')', ['/'] + (['*'] + ([c] + (['*'] + (['/'] + "")))), s1);
    ReadCons('/', ['*'] + ([c] + (['*'] + (['/'] + ""))), s2);
    ReadCons('*', [c] + (['*'] + (['/'] + "")), s3);
    ReadCons(c, ['*'] + (['/'] + ""), s4);
    ReadCons('*', ['/'] + "", s5);
    ReadCons('/', "", s6);
    ReadNothing(s7);
  }

  lemma LandLine(s: Lex)
    requires s.mode == Line && s.depth == 1 && !s.sunk
    ensures var e := Read(Rescue(Line), s); Outside(e.mode) && e.depth == 0 && !e.sunk
  {
    hide Read;
    var s1 := Next(s, '(');
    var s2 := Next(s1, '\n');
    var s3 := Next(s2, ')');
    assert Outside(s3.mode) && s3.depth == 0 && !s3.sunk;
    hide Next;
    assert Rescue(Line) == ['('] + (['\n'] + ([')'] + ""));
    ReadCons('(', ['\n'] + ([')'] + ""), s);
    ReadCons('\n', [')'] + "", s1);
    ReadCons(')', "", s2);
    ReadNothing(s3);
  }

  lemma LandBlock(s: Lex)
    requires s.mode == Block && s.depth == 1 && !s.sunk
    ensures var e := Read(Rescue(Block), s); Outside(e.mode) && e.depth == 0 && !e.sunk
  {
    hide Read;
    var s1 := Next(s, '(');
    var s2 := Next(s1, '*');
    var s3 := Next(s2, '/');
    var s4 := Next(s3, ')');
    assert Outside(s4.mode) && s4.depth == 0 && !s4.sunk;
    hide Next;
    assert Rescue(Block) == ['('] + (['*'] + (['/'] + ([')'] + "")));
    ReadCons('(', ['*'] + (['/'] + ([')'] + "")), s);
    ReadCons('*', ['/'] + ([')'] + ""), s1);
    ReadCons('/', [')'] + "", s2);
    ReadCons(')', "", s3);
    ReadNothing(s4);
  }

  /**
    An unclosed conjunct: some clean predicate beside it begins inside it, and the clause still
    reads as well formed.
   */
  lemma UnclosedIsDishonest(f: Fragment) returns (g: Fragment)
    requires Balanced(f.text) && !Closed(f.text)
    ensures Clean(g.text) && !Honest(f, g)
  {
    hide Read, Watch;
    var s := Read(f.text, START);
    QuotesAreQuotes(f.text, START);
    WatchReads(f.text);
    SunkVerdict(f.text);
    assert Escapes(f.text, f.args);
    ReadBracketed(f.text);
    var inside := Deeper(s, 1, false);
    StrandedThroughAnd(inside);
    var before := Rendered(f, true) + AND;
    assert before == ("(" + f.text) + (")" + AND);
    ReadConcat("(" + f.text, ")" + AND, START);
    var there := Read(before, START);
    g := Fragment(Rescue(there.mode), 0);
    RescueIsClean(there.mode);
    RescueLands(there);
    ReadConcat(before, Rendered(g, true), START);
  }

  /**
    A balanced conjunct keeps to itself beside every clean predicate exactly when it ends outside
    literals and comments.
   */
  lemma HonestIffClosed(f: Fragment)
    requires Balanced(f.text)
    ensures (forall g: Fragment :: Clean(g.text) ==> Honest(f, g)) <==> Closed(f.text)
  {
    if Closed(f.text) {
      forall g: Fragment | Clean(g.text) ensures Honest(f, g) {
        HonestPair(f, g);
      }
    } else {
      var g := UnclosedIsDishonest(f);
    }
  }

  lemma HonestPair(f: Fragment, g: Fragment)
    requires Clean(f.text) && Clean(g.text)
    ensures Honest(f, g)
  {
    var both := [f, g];
    ConjunctsStayApart(both);
    assert both[..1] == [f];
    assert Before(both, 1) == Rendered(f, true) + AND;
    assert Clause(both, true) == Before(both, 1) + Rendered(g, true);
    hide Read, Clause, Before;
    assert Read(Before(both, 1), START) == START;
  }
}
