/** SETTINGS lists: checking that a value is one value, and splitting the list back into its pairs. */
module Settings {
  import opened Wrappers
  import opened Strings

  // ------------------------------------------------------------------- scanning

  datatype Mode = Plain | Dash | Slash | Literal(c: char) | Escaped(c: char) | Closing(c: char)

  /** `spoilt` once a comment opened or a bracket closed too many times; `commas` once a comma stood outside. */
  datatype Scan = Scan(mode: Mode, depth: int, spoilt: bool, commas: bool)

  const START := Scan(Plain, 0, false, false)

  predicate Inside(m: Mode) {
    m.Literal? || m.Escaped?
  }

  /** Whether c, read in this state, is text outside literals. */
  predicate IsText(s: Scan, c: char) {
    !Inside(s.mode) && !(s.mode.Closing? && s.mode.c == c)
  }

  predicate OpensComment(s: Scan, c: char) {
    c == '#' || (s.mode == Dash && c == '-') || (s.mode == Slash && c == '*')
  }

  /** A comma that separates settings. */
  predicate Separates(s: Scan, c: char) {
    c == ',' && s.depth == 0 && IsText(s, c)
  }

  /** One character, with the given quotes opening literals. */
  function Next(quotes: set<char>, s: Scan, c: char): Scan {
    match s.mode
    case Literal(q) => s.(mode := if c == '\\' then Escaped(q) else if c == q then Closing(q) else Literal(q))
    case Escaped(q) => s.(mode := Literal(q))
    case _ =>
      if s.mode.Closing? && s.mode.c == c then s.(mode := Literal(c))
      else if c in quotes then s.(mode := Literal(c))
      else
        var depth :=
          if c == '(' || c == '[' then s.depth + 1 else if c == ')' || c == ']' then s.depth - 1 else s.depth;
        Scan(if c == '-' then Dash else if c == '/' then Slash else Plain, depth,
             s.spoilt || OpensComment(s, c) || depth < 0, s.commas || Separates(s, c))
  }

  function Read(quotes: set<char>, text: string, s: Scan): Scan {
    if text == "" then s else Read(quotes, text[1..], Next(quotes, s, text[0]))
  }

  lemma {:induction false} ReadConcat(quotes: set<char>, a: string, b: string, s: Scan)
    ensures Read(quotes, a + b, s) == Read(quotes, b, Read(quotes, a, s))
    decreases a
  {
    hide Next;
    if a == "" {
      assert a + b == b;
    } else {
      assert (a + b)[1..] == a[1..] + b;
      ReadConcat(quotes, a[1..], b, Next(quotes, s, a[0]));
    }
  }

  lemma ReadSnoc(quotes: set<char>, text: string, i: nat)
    requires i < |text|
    ensures Read(quotes, text[..i + 1], START) == Next(quotes, Read(quotes, text[..i], START), text[i])
  {
    hide Next;
    assert text[..i + 1] == text[..i] + [text[i]];
    ReadConcat(quotes, text[..i], [text[i]], START);
    var s := Read(quotes, text[..i], START);
    assert [text[i]][1..] == "";
  }

  /** A value that is one value: no comment, no stray bracket or comma, no open literal or bracket. */
  predicate OneValue(quotes: set<char>, v: string) {
    var end := Read(quotes, v, START);
    !end.spoilt && !end.commas && !Inside(end.mode) && end.depth == 0
  }

  // ------------------------------------------------------------------- validation

  datatype Refusal = Empty | Comment | StrayBracket | StrayComma | OpenLiteral | OpenBracket

  const SINGLE := {'\''}

  /** Once spoilt, or once a comma stood outside, always so. */
  lemma {:induction false} FlagsStay(quotes: set<char>, text: string, s: Scan)
    ensures s.spoilt ==> Read(quotes, text, s).spoilt
    ensures s.commas ==> Read(quotes, text, s).commas
    decreases text
  {
    if text != "" {
      FlagsStay(quotes, text[1..], Next(quotes, s, text[0]));
    }
  }

  lemma Spoils(v: string, i: nat)
    requires i <= |v| && (Read(SINGLE, v[..i], START).spoilt || Read(SINGLE, v[..i], START).commas)
    ensures !OneValue(SINGLE, v)
  {
    hide Read;
    assert v == v[..i] + v[i..];
    ReadConcat(SINGLE, v[..i], v[i..], START);
    FlagsStay(SINGLE, v[i..], Read(SINGLE, v[..i], START));
  }

  /** The scan between two characters: nothing has gone wrong, and no two-character token straddles i. */
  ghost predicate Between(v: string, i: nat, depth: int, inLit: bool)
    requires i <= |v|
  {
    var s := Read(SINGLE, v[..i], START);
    && !s.spoilt && !s.commas && s.depth == depth >= 0
    && (if inLit then s.mode == Literal('\'') else !Inside(s.mode))
    && (!inLit && i < |v| ==> IsText(s, v[i]) && (v[i] == '#' || !OpensComment(s, v[i])))
    && (s.mode.Closing? ==> s.mode.c == '\'')
  }

  method ValidateSettingValue(value: string) returns (refused: Option<Refusal>)
    ensures refused.None? <==> TrimSpace(value) != "" && OneValue(SINGLE, value)
  {
    var v := TrimSpace(value);
    RawIsOneValue(SINGLE, value);
    if v == "" {
      return Some(Empty);
    }
    hide TrimSpace, Between;
    var depth := 0;
    var inLit := false;
    var i := 0;
    BetweenStarts(v);
    while i < |v|
      invariant 0 <= i <= |v| && Between(v, i, depth, inLit)
      decreases |v| - i
    {
      var c := v[i];
      if inLit {
        LiteralStep(v, i, depth);
        if c == '\\' {
          i := i + 2;
          if i > |v| {
            return Some(OpenLiteral);
          }
        } else if c == '\'' {
          if i + 1 < |v| && v[i + 1] == '\'' {
            i := i + 2;
          } else {
            inLit := false;
            i := i + 1;
          }
        } else {
          i := i + 1;
        }
      } else if c == '\'' {
        TextStep(v, i, depth);
        inLit := true;
        i := i + 1;
      } else if c == '#' || (i + 1 < |v| && ((c == '-' && v[i + 1] == '-') || (c == '/' && v[i + 1] == '*'))) {
        CommentStep(v, i, depth);
        return Some(Comment);
      } else {
        TextStep(v, i, depth);
        if c == '(' || c == '[' {
          depth := depth + 1;
        } else if c == ')' || c == ']' {
          depth := depth - 1;
          if depth < 0 {
            return Some(StrayBracket);
          }
        } else if c == ',' && depth == 0 {
          return Some(StrayComma);
        }
        i := i + 1;
      }
    }
    BetweenEnds(v, depth, inLit);
    return if inLit then Some(OpenLiteral) else if depth != 0 then Some(OpenBracket) else None;
  }

  lemma BetweenStarts(v: string)
    ensures Between(v, 0, 0, false)
  {
    assert v[..0] == "";
  }

  lemma BetweenEnds(v: string, depth: int, inLit: bool)
    requires Between(v, |v|, depth, inLit)
    ensures OneValue(SINGLE, v) <==> !inLit && depth == 0
  {
    assert v[..|v|] == v;
    hide Read;
  }

  lemma LiteralStep(v: string, i: nat, depth: int)
    requires i < |v| && Between(v, i, depth, true)
    ensures v[i] == '\\' ==> if i + 1 < |v| then Between(v, i + 2, depth, true) else !OneValue(SINGLE, v)
    ensures v[i] == '\'' && i + 1 < |v| && v[i + 1] == '\'' ==> Between(v, i + 2, depth, true)
    ensures v[i] == '\'' && !(i + 1 < |v| && v[i + 1] == '\'') ==> Between(v, i + 1, depth, false)
    ensures v[i] != '\\' && v[i] != '\'' ==> Between(v, i + 1, depth, true)
  {
    hide Read;
    ReadSnoc(SINGLE, v, i);
    if i + 1 < |v| {
      ReadSnoc(SINGLE, v, i + 1);
    } else {
      assert v[..i + 1] == v;
    }
  }

  lemma TextStep(v: string, i: nat, depth: int)
    requires i < |v| && Between(v, i, depth, false) && v[i] != '#'
    requires !(i + 1 < |v| && ((v[i] == '-' && v[i + 1] == '-') || (v[i] == '/' && v[i + 1] == '*')))
    ensures v[i] == '\'' ==> Between(v, i + 1, depth, true)
    ensures v[i] == '(' || v[i] == '[' ==> Between(v, i + 1, depth + 1, false)
    ensures v[i] == ')' || v[i] == ']' ==>
      if depth > 0 then Between(v, i + 1, depth - 1, false) else !OneValue(SINGLE, v)
    ensures v[i] == ',' && depth == 0 ==> !OneValue(SINGLE, v)
    ensures v[i] != '\'' && v[i] != '(' && v[i] != '[' && v[i] != ')' && v[i] != ']' && !(v[i] == ',' && depth == 0) ==>
              Between(v, i + 1, depth, false)
  {
    hide Read, OneValue;
    ReadSnoc(SINGLE, v, i);
    var s := Read(SINGLE, v[..i + 1], START);
    if s.spoilt || s.commas {
      Spoils(v, i + 1);
    }
  }

  lemma CommentStep(v: string, i: nat, depth: int)
    requires i < |v| && Between(v, i, depth, false)
    requires v[i] == '#' || (i + 1 < |v| && ((v[i] == '-' && v[i + 1] == '-') || (v[i] == '/' && v[i + 1] == '*')))
    ensures !OneValue(SINGLE, v)
  {
    hide Read, OneValue;
    ReadSnoc(SINGLE, v, i);
    if v[i] == '#' {
      Spoils(v, i + 1);
    } else {
      ReadSnoc(SINGLE, v, i + 1);
      Spoils(v, i + 2);
    }
  }

  // --------------------------------------------------------------- the list, and back

  predicate IsKeyChar(c: char) {
    'a' <= c <= 'z' || 'A' <= c <= 'Z' || c == '_' || '0' <= c <= '9'
  }

  /** A setting name: letters, digits and underscores, not starting with a digit. */
  predicate ValidKey(key: string) {
    key != "" && !('0' <= key[0] <= '9') && forall i :: 0 <= i < |key| ==> IsKeyChar(key[i])
  }

  method ValidateSettingKey(key: string) returns (ok: bool)
    ensures ok <==> ValidKey(key)
  {
    if key == "" {
      return false;
    }
    for i := 0 to |key|
      invariant forall j :: 0 <= j < i ==> IsKeyChar(key[j])
      invariant i > 0 ==> !('0' <= key[0] <= '9')
    {
      var c := key[i];
      if 'a' <= c <= 'z' || 'A' <= c <= 'Z' || c == '_' {
      } else if '0' <= c <= '9' && i > 0 {
      } else {
        return false;
      }
    }
    return true;
  }

  datatype Pair = Pair(key: string, value: string)

  function Entry(p: Pair): string {
    p.key + " = " + p.value
  }

  function List(pairs: seq<Pair>): string {
    if pairs == [] then ""
    else if |pairs| == 1 then Entry(pairs[0])
    else Entry(pairs[0]) + ", " + List(pairs[1..])
  }

  /** The pieces between separating commas. */
  function Split(quotes: set<char>, text: string, s: Scan, cur: string): seq<string>
    decreases text
  {
    if text == "" then [cur]
    else if Separates(s, text[0]) then [cur] + Split(quotes, text[1..], Next(quotes, s, text[0]), "")
    else Split(quotes, text[1..], Next(quotes, s, text[0]), cur + [text[0]])
  }

  /** Text without a separating comma is all one piece. */
  lemma {:induction false} SplitSkips(quotes: set<char>, text: string, rest: string, s: Scan, cur: string)
    requires ',' !in quotes && !Read(quotes, text, s).commas
    ensures Split(quotes, text + rest, s, cur) == Split(quotes, rest, Read(quotes, text, s), cur + text)
    decreases text
  {
    if text == "" {
      assert text + rest == rest && cur + text == cur;
    } else {
      assert (text + rest)[0] == text[0] && (text + rest)[1..] == text[1..] + rest;
      assert cur + [text[0]] + text[1..] == cur + text;
      FlagsStay(quotes, text[1..], Next(quotes, s, text[0]));
      assert !Separates(s, text[0]);
      hide Next, Separates;
      SplitSkips(quotes, text[1..], rest, Next(quotes, s, text[0]), cur + [text[0]]);
    }
  }

  /** Between settings: outside, level, and nothing pending that a key could complete. */
  predicate Fresh(s: Scan) {
    s.mode == Plain && s.depth == 0 && !s.spoilt && !s.commas
  }

  lemma {:induction false} KeyReads(quotes: set<char>, key: string, s: Scan)
    requires (forall c :: c in quotes ==> !IsKeyChar(c)) && Fresh(s)
    requires forall i :: 0 <= i < |key| ==> IsKeyChar(key[i])
    ensures Read(quotes, key, s) == s
    decreases key
  {
    if key != "" {
      assert Next(quotes, s, key[0]) == s;
      KeyReads(quotes, key[1..], s);
    }
  }

  ghost predicate Quotes(quotes: set<char>) {
    forall c :: c in quotes ==> c == '\'' || c == '"' || c == '`'
  }

  lemma EqualsReads(quotes: set<char>)
    requires Quotes(quotes)
    ensures Read(quotes, " = ", START) == START
  {
    assert " = " == [' '] + (['='] + ([' '] + ""));
    ReadCons(quotes, ' ', ['='] + ([' '] + ""), START);
    ReadCons(quotes, '=', [' '] + "", START);
    ReadCons(quotes, ' ', "", START);
  }

  lemma ReadCons(quotes: set<char>, c: char, rest: string, s: Scan)
    ensures Read(quotes, [c] + rest, s) == Read(quotes, rest, Next(quotes, s, c))
  {
    assert ([c] + rest)[1..] == rest;
  }

  lemma EntryReads(quotes: set<char>, p: Pair)
    requires Quotes(quotes) && ValidKey(p.key) && OneValue(quotes, p.value)
    ensures var e := Read(quotes, Entry(p), START); !e.spoilt && !e.commas && !Inside(e.mode) && e.depth == 0
  {
    KeyReads(quotes, p.key, START);
    EqualsReads(quotes);
    hide Read;
    ReadConcat(quotes, p.key + " = ", p.value, START);
    ReadConcat(quotes, p.key, " = ", START);
  }

  ghost predicate AllValid(quotes: set<char>, pairs: seq<Pair>) {
    forall i :: 0 <= i < |pairs| ==> ValidKey(pairs[i].key) && OneValue(quotes, pairs[i].value)
  }

  function Pieces(pairs: seq<Pair>): seq<string> {
    if pairs == [] then [] else [Entry(pairs[0])] + Pieces(pairs[1..])
  }

  /** The separator starts the next piece, with its space. */
  lemma SeparatorSplits(quotes: set<char>, s: Scan, rest: string, cur: string)
    requires Quotes(quotes) && !s.spoilt && !s.commas && !Inside(s.mode) && s.depth == 0
    requires s.mode.Closing? ==> s.mode.c in quotes
    ensures Split(quotes, ", " + rest, s, cur) == [cur] + Split(quotes, rest, START.(commas := true), " ")
  {
    var text := ", " + rest;
    assert text[0] == ',' && text[1..][0] == ' ' && text[1..][1..] == rest;
    var s1 := Next(quotes, s, ',');
    assert s1 == START.(commas := true);
    assert Next(quotes, s1, ' ') == s1 && !Separates(s1, ' ');
    assert "" + [' '] == " ";
    assert Split(quotes, text[1..], s1, "") == Split(quotes, rest, s1, " ");
  }

  /** Where a scan stands does not depend on commas already passed. */
  lemma {:induction false} CommasAside(quotes: set<char>, text: string, s: Scan, cur: string)
    ensures Split(quotes, text, s.(commas := true), cur) == Split(quotes, text, s, cur)
    decreases text
  {
    if text != "" {
      var (a, b) := (Next(quotes, s, text[0]), Next(quotes, s.(commas := true), text[0]));
      assert a.(commas := true) == b;
      hide Next;
      if Separates(s, text[0]) {
        CommasAside(quotes, text[1..], a, "");
      } else {
        CommasAside(quotes, text[1..], a, cur + [text[0]]);
      }
    }
  }

  lemma {:induction false} ClosingIsQuote(quotes: set<char>, text: string, s: Scan)
    requires s.mode.Closing? || s.mode.Literal? || s.mode.Escaped? ==> s.mode.c in quotes
    ensures var m := Read(quotes, text, s).mode; m.Closing? || m.Literal? || m.Escaped? ==> m.c in quotes
    decreases text
  {
    if text != "" {
      ClosingIsQuote(quotes, text[1..], Next(quotes, s, text[0]));
    }
  }

  /** The list splits back into its entries, every one but the first after the separator's space. */
  function Spaced(lead: string, pieces: seq<string>): seq<string>
    decreases pieces
  {
    if pieces == [] then [] else [lead + pieces[0]] + Spaced(" ", pieces[1..])
  }

  lemma {:induction false} ListSplits(quotes: set<char>, pairs: seq<Pair>, lead: string)
    requires Quotes(quotes) && AllValid(quotes, pairs) && pairs != []
    ensures Split(quotes, List(pairs), START, lead) == Spaced(lead, Pieces(pairs))
  {
    hide Next, Read, OneValue, ValidKey;
    var entry := Entry(pairs[0]);
    EntryReads(quotes, pairs[0]);
    ClosingIsQuote(quotes, entry, START);
    var s := Read(quotes, entry, START);
    if |pairs| == 1 {
      SplitSkips(quotes, entry, "", START, lead);
      assert entry + "" == entry;
      assert Pieces(pairs[1..]) == [];
    } else {
      var rest := List(pairs[1..]);
      assert List(pairs) == entry + (", " + rest);
      SplitSkips(quotes, entry, ", " + rest, START, lead);
      SeparatorSplits(quotes, s, rest, lead + entry);
      CommasAside(quotes, rest, START, " ");
      assert AllValid(quotes, pairs[1..]);
      ListSplits(quotes, pairs[1..], " ");
    }
  }

  /** A piece back into a pair: drop the separator's space, then the name up to " = ". */
  function NameLength(piece: string): nat {
    if piece == "" || !IsKeyChar(piece[0]) then 0 else 1 + NameLength(piece[1..])
  }

  function ToPair(piece: string): Option<Pair> {
    var p := if piece != "" && piece[0] == ' ' then piece[1..] else piece;
    var n := NameLength(p);
    if n + 3 <= |p| && p[n..n + 3] == " = " then Some(Pair(p[..n], p[n + 3..])) else None
  }

  lemma {:induction false} NameOfEntry(key: string, rest: string)
    requires (forall i :: 0 <= i < |key| ==> IsKeyChar(key[i])) && (rest != "" ==> !IsKeyChar(rest[0]))
    ensures NameLength(key + rest) == |key|
  {
    if key == "" {
      assert key + rest == rest;
    } else {
      assert (key + rest)[0] == key[0] && (key + rest)[1..] == key[1..] + rest;
      NameOfEntry(key[1..], rest);
    }
  }

  lemma PairOfEntry(p: Pair, lead: string)
    requires ValidKey(p.key) && (lead == "" || lead == " ")
    ensures ToPair(lead + Entry(p)) == Some(p)
  {
    var e := Entry(p);
    assert e == p.key + (" = " + p.value);
    NameOfEntry(p.key, " = " + p.value);
    assert e[|p.key|..|p.key| + 3] == " = " && e[|p.key| + 3..] == p.value && e[..|p.key|] == p.key;
    assert e[0] == p.key[0];
    if lead == " " {
      assert (lead + e)[1..] == e;
    } else {
      assert lead + e == e;
    }
  }

  function Parsed(pieces: seq<string>): seq<Option<Pair>> {
    if pieces == [] then [] else [ToPair(pieces[0])] + Parsed(pieces[1..])
  }

  /** Validated settings, joined by commas, split back to the same pairs. */
  lemma {:induction false} ListRoundTrip(quotes: set<char>, pairs: seq<Pair>)
    requires Quotes(quotes) && AllValid(quotes, pairs) && pairs != []
    ensures var back := Parsed(Split(quotes, List(pairs), START, ""));
      |back| == |pairs| && forall i :: 0 <= i < |pairs| ==> back[i] == Some(pairs[i])
  {
    hide Read, Next, OneValue;
    ListSplits(quotes, pairs, "");
    SpacedParses(quotes, pairs, "");
  }

  lemma {:induction false} SpacedParses(quotes: set<char>, pairs: seq<Pair>, lead: string)
    requires AllValid(quotes, pairs) && (lead == "" || lead == " ")
    ensures var back := Parsed(Spaced(lead, Pieces(pairs)));
      |back| == |pairs| && forall i :: 0 <= i < |pairs| ==> back[i] == Some(pairs[i])
  {
    hide ToPair, OneValue, ValidKey, Entry;
    if pairs != [] {
      var pieces := Pieces(pairs);
      assert pieces[1..] == Pieces(pairs[1..]);
      assert Spaced(lead, pieces)[1..] == Spaced(" ", pieces[1..]);
      assert AllValid(quotes, pairs[1..]);
      SpacedParses(quotes, pairs[1..], " ");
      PairOfEntry(pairs[0], lead);
    }
  }

  // --------------------------------------------------- the value as it was written

  lemma {:induction false} LeadingSpace(quotes: set<char>, v: string)
    requires Quotes(quotes)
    ensures Read(quotes, v, START) == Read(quotes, TrimLeft(v, IsSpace), START)
  {
    if v != "" && IsSpace(v[0]) {
      assert Next(quotes, START, v[0]) == START;
      LeadingSpace(quotes, v[1..]);
    }
  }

  lemma {:induction false} TrailingSpace(quotes: set<char>, v: string)
    requires Quotes(quotes)
    ensures OneValue(quotes, v) <==> OneValue(quotes, TrimRight(v, IsSpace))
  {
    if v != "" && IsSpace(v[|v| - 1]) {
      var n := |v| - 1;
      TrailingSpace(quotes, v[..n]);
      ReadSnoc(quotes, v, n);
      ClosingIsQuote(quotes, v[..n], START);
      assert v[..n + 1] == v;
      hide Read;
    }
  }

  /** The check reads the trimmed value and the statement holds the raw one: it is one value or neither is. */
  lemma RawIsOneValue(quotes: set<char>, v: string)
    requires Quotes(quotes)
    ensures OneValue(quotes, v) <==> OneValue(quotes, TrimSpace(v))
  {
    LeadingSpace(quotes, v);
    TrailingSpace(quotes, TrimLeft(v, IsSpace));
    hide Read;
  }

  // -------------------------------------------- the quotes the check does not track

  const ALL_QUOTES := {'\'', '"', '`'}

  /** Without the other quotes in it, a value reads the same with and without them. */
  lemma {:induction false} OtherQuotesAbsent(text: string, s: Scan)
    requires '"' !in text && '`' !in text
    ensures Read(SINGLE, text, s) == Read(ALL_QUOTES, text, s)
    decreases text
  {
    if text != "" {
      assert text[0] in text && text[0] != '"' && text[0] != '`';
      assert Next(SINGLE, s, text[0]) == Next(ALL_QUOTES, s, text[0]);
      hide Next;
      OtherQuotesAbsent(text[1..], Next(SINGLE, s, text[0]));
    }
  }

  lemma QuoteFreeIsOneValue(v: string)
    requires OneValue(SINGLE, v) && QuoteFree(v)
    ensures OneValue(ALL_QUOTES, v)
  {
    OtherQuotesAbsent(v, START);
  }

  predicate QuoteFree(v: string) {
    '"' !in v && '`' !in v
  }

  /** The list is read back to its own pairs, with no comment and no bracket closed too often. */
  predicate ReadsBack(quotes: set<char>, pairs: seq<Pair>) {
    var back := Parsed(Split(quotes, List(pairs), START, ""));
    !Read(quotes, List(pairs), START).spoilt
    && |back| == |pairs| && forall i :: 0 <= i < |pairs| ==> back[i] == Some(pairs[i])
  }

  /** Every list of checked settings, v among them and the others without the quotes the check does not track. */
  ghost predicate SafeBeside(v: string) {
    forall pairs: seq<Pair>, i: nat :: i < |pairs| && pairs[i].value == v && AllBut(pairs, i) ==>
      ReadsBack(ALL_QUOTES, pairs)
  }

  ghost predicate AllBut(pairs: seq<Pair>, i: nat) {
    AllValid(SINGLE, pairs) && forall j :: 0 <= j < |pairs| && j != i ==> QuoteFree(pairs[j].value)
  }

  lemma {:induction false} ListUnspoilt(quotes: set<char>, pairs: seq<Pair>)
    requires Quotes(quotes) && AllValid(quotes, pairs)
    ensures var e := Read(quotes, List(pairs), START); !e.spoilt && !Inside(e.mode) && e.depth == 0
  {
    hide Next, OneValue, ValidKey, Entry;
    if |pairs| == 1 {
      EntryReads(quotes, pairs[0]);
    } else if |pairs| > 1 {
      var (entry, rest) := (Entry(pairs[0]), List(pairs[1..]));
      EntryReads(quotes, pairs[0]);
      ClosingIsQuote(quotes, entry, START);
      ListUnspoilt(quotes, pairs[1..]);
      hide Read;
      var s := Read(quotes, entry, START);
      SeparatorReads(quotes, s);
      ReadConcat(quotes, entry + ", ", rest, START);
      ReadConcat(quotes, entry, ", ", START);
      CommasRead(quotes, rest, START);
    }
  }

  lemma SeparatorReads(quotes: set<char>, s: Scan)
    requires Quotes(quotes) && !s.spoilt && !Inside(s.mode) && s.depth == 0 && (s.mode.Closing? ==> s.mode.c in quotes)
    ensures Read(quotes, ", ", s) == START.(commas := true)
  {
    assert ", " == [','] + ([' '] + "");
    ReadCons(quotes, ',', [' '] + "", s);
    ReadCons(quotes, ' ', "", Next(quotes, s, ','));
  }

  lemma {:induction false} CommasRead(quotes: set<char>, text: string, s: Scan)
    ensures Read(quotes, text, s.(commas := true)) == Read(quotes, text, s).(commas := true)
    decreases text
  {
    if text != "" {
      assert Next(quotes, s.(commas := true), text[0]) == Next(quotes, s, text[0]).(commas := true);
      CommasRead(quotes, text[1..], Next(quotes, s, text[0]));
    }
  }

  /** A separating comma makes a further piece. */
  lemma {:induction false} SplitMore(quotes: set<char>, text: string, s: Scan, cur: string)
    requires Read(quotes, text, s).commas && !s.commas
    ensures |Split(quotes, text, s, cur)| >= 2
    decreases text
  {
    if Separates(s, text[0]) {
      SplitSome(quotes, text[1..], Next(quotes, s, text[0]), "");
    } else {
      assert !Next(quotes, s, text[0]).commas;
      hide Next;
      SplitMore(quotes, text[1..], Next(quotes, s, text[0]), cur + [text[0]]);
    }
  }

  lemma {:induction false} SplitSome(quotes: set<char>, text: string, s: Scan, cur: string)
    ensures |Split(quotes, text, s, cur)| >= 1
    decreases text
  {
    hide Next;
    if text != "" && !Separates(s, text[0]) {
      SplitSome(quotes, text[1..], Next(quotes, s, text[0]), cur + [text[0]]);
    }
  }

  lemma {:induction false} ParsedLength(pieces: seq<string>)
    ensures |Parsed(pieces)| == |pieces|
  {
    hide ToPair;
    if pieces != [] {
      ParsedLength(pieces[1..]);
    }
  }

  /** After a value that is left open, what follows holds no separator. */
  lemma {:induction false} OpenSwallows(text: string, s: Scan)
    requires !s.commas && (Inside(s.mode) || s.depth > 0)
    requires forall i :: 0 <= i < |text| ==> IsKeyChar(text[i]) || text[i] in {' ', ',', '='}
    requires Inside(s.mode) ==> s.mode.c in ALL_QUOTES
    requires s.mode.Closing? ==> s.mode.c in ALL_QUOTES
    ensures !Read(ALL_QUOTES, text, s).commas
    decreases text
  {
    if text != "" {
      OpenSwallows(text[1..], Next(ALL_QUOTES, s, text[0]));
    }
  }

  /** A value alone in the list, or followed by one more setting. */
  lemma LoneList(v: string)
    ensures List([Pair("a", v)]) == "a = " + v
    ensures List([Pair("a", v), Pair("b", "1")]) == "a = " + v + ", b = 1"
  {
    var (p, q) := (Pair("a", v), Pair("b", "1"));
    assert [p, q][1..] == [q] && List([q]) == Entry(q) == "b = 1";
    assert List([p, q]) == Entry(p) + ", " + Entry(q);
    assert "a" + " = " == "a = " && ", " + "b = 1" == ", b = 1";
  }

  lemma AfterName(v: string)
    ensures Read(ALL_QUOTES, "a = " + v, START) == Read(ALL_QUOTES, v, START)
  {
    KeyReads(ALL_QUOTES, "a", START);
    EqualsReads(ALL_QUOTES);
    hide Read;
    assert "a" + " = " == "a = ";
    ReadConcat(ALL_QUOTES, "a", " = ", START);
    ReadConcat(ALL_QUOTES, "a = ", v, START);
  }

  lemma ShortListsChecked(v: string)
    requires OneValue(SINGLE, v)
    ensures AllBut([Pair("a", v)], 0) && AllBut([Pair("a", v), Pair("b", "1")], 0)
  {
    assert OneValue(SINGLE, "1") by {
      assert "1"[1..] == "";
    }
    hide OneValue;
  }

  /** A value that is more or less than one value to a reader of all quotes spoils a list of two at most. */
  lemma NotOneValueFails(v: string)
    requires OneValue(SINGLE, v) && !OneValue(ALL_QUOTES, v)
    ensures !ReadsBack(ALL_QUOTES, [Pair("a", v)]) || !ReadsBack(ALL_QUOTES, [Pair("a", v), Pair("b", "1")])
  {
    hide Next, Split, List, Parsed;
    LoneList(v);
    AfterName(v);
    ClosingIsQuote(ALL_QUOTES, v, START);
    var lone := "a = " + v;
    var both := lone + ", b = 1";
    var end := Read(ALL_QUOTES, v, START);
    hide Read;
    if end.commas {
      SplitMore(ALL_QUOTES, lone, START, "");
      ParsedLength(Split(ALL_QUOTES, lone, START, ""));
    } else if !end.spoilt {
      DepthIsLevel(v);
      OpenSwallows(", b = 1", end);
      ReadConcat(ALL_QUOTES, lone, ", b = 1", START);
      SplitSkips(ALL_QUOTES, both, "", START, "");
      assert both + "" == both && "" + both == both;
      SplitDone(ALL_QUOTES, Read(ALL_QUOTES, both, START), both);
      ParsedLength([both]);
    }
  }

  lemma SplitDone(quotes: set<char>, s: Scan, cur: string)
    ensures Split(quotes, "", s, cur) == [cur]
  {
  }

  lemma {:induction false} DepthFrom(quotes: set<char>, text: string, s: Scan)
    requires s.depth >= 0 && !Read(quotes, text, s).spoilt
    ensures Read(quotes, text, s).depth >= 0
    decreases text
  {
    if text != "" {
      FlagsStay(quotes, text[1..], Next(quotes, s, text[0]));
      DepthFrom(quotes, text[1..], Next(quotes, s, text[0]));
    }
  }

  lemma DepthIsLevel(v: string)
    requires !Read(ALL_QUOTES, v, START).spoilt
    ensures Read(ALL_QUOTES, v, START).depth >= 0
  {
    DepthFrom(ALL_QUOTES, v, START);
  }

  /**
    A checked value is safe beside every list of checked settings, for a reader of all three
    quotes, exactly when it is one value to that reader too.
   */
  lemma SafeBesideIff(v: string)
    requires OneValue(SINGLE, v)
    ensures SafeBeside(v) <==> OneValue(ALL_QUOTES, v)
  {
    hide OneValue, ReadsBack, QuoteFree, ValidKey;
    if OneValue(ALL_QUOTES, v) {
      forall pairs: seq<Pair>, i: nat | i < |pairs| && pairs[i].value == v && AllBut(pairs, i)
        ensures ReadsBack(ALL_QUOTES, pairs)
      {
        forall j | 0 <= j < |pairs| ensures OneValue(ALL_QUOTES, pairs[j].value) {
          if j != i {
            QuoteFreeIsOneValue(pairs[j].value);
          }
        }
        AllReadBack(pairs);
      }
    } else {
      ShortListsChecked(v);
      NotOneValueFails(v);
    }
  }

  lemma AllReadBack(pairs: seq<Pair>)
    requires AllValid(ALL_QUOTES, pairs) && pairs != []
    ensures ReadsBack(ALL_QUOTES, pairs)
  {
    hide Read, Split, List, Parsed, OneValue;
    ListRoundTrip(ALL_QUOTES, pairs);
    ListUnspoilt(ALL_QUOTES, pairs);
  }

  /** A value that passes the check and holds a separator of its own. */
  lemma QuoteAddsSetting()
    ensures var v := "\"'\",\"'\""; OneValue(SINGLE, v) && Read(ALL_QUOTES, v, START).commas
    ensures |Split(ALL_QUOTES, List([Pair("a", "\"'\",\"'\"")]), START, "")| >= 2
  {
    var v := "\"'\",\"'\"";
    assert v == ['"'] + (['\''] + (['"'] + ([','] + (['"'] + (['\''] + (['"'] + ""))))));
    ReadQuotes(SINGLE);
    ReadQuotes(ALL_QUOTES);
    hide Next, Read, Split, List;
    LoneList(v);
    AfterName(v);
    SplitMore(ALL_QUOTES, "a = " + v, START, "");
  }

  lemma ReadQuotes(quotes: set<char>)
    ensures var v := ['"'] + (['\''] + (['"'] + ([','] + (['"'] + (['\''] + (['"'] + ""))))));
      var s := Read(quotes, v, START);
      && (quotes == SINGLE ==> s == Scan(Plain, 0, false, false))
      && (quotes == ALL_QUOTES ==> s.commas)
  {
    hide Read;
    var v6 := ['"'] + "";
    var v5 := ['\''] + v6;
    var v4 := ['"'] + v5;
    var v3 := [','] + v4;
    var v2 := ['"'] + v3;
    var v1 := ['\''] + v2;
    var s1 := Next(quotes, START, '"');
    var s2 := Next(quotes, s1, '\'');
    var s3 := Next(quotes, s2, '"');
    var s4 := Next(quotes, s3, ',');
    var s5 := Next(quotes, s4, '"');
    var s6 := Next(quotes, s5, '\'');
    ReadCons(quotes, '"', v1, START);
    ReadCons(quotes, '\'', v2, s1);
    ReadCons(quotes, '"', v3, s2);
    ReadCons(quotes, ',', v4, s3);
    ReadCons(quotes, '"', v5, s4);
    ReadCons(quotes, '\'', v6, s5);
    ReadCons(quotes, '"', "", s6);
    FlagsStay(quotes, v4, s4);
    ReadNothing(quotes, Next(quotes, s6, '"'));
  }

  lemma ReadNothing(quotes: set<char>, s: Scan)
    ensures Read(quotes, "", s) == s
  {
  }

  /** Two values that pass the check and that a reader of all three quotes takes for one. */
  lemma QuoteHidesSetting()
    ensures OneValue(SINGLE, "\"") && !OneValue(ALL_QUOTES, "\"")
    ensures Split(ALL_QUOTES, List([Pair("a", "\""), Pair("b", "\"")]), START, "") ==
            [List([Pair("a", "\""), Pair("b", "\"")])]
  {
    LoneQuote();
    hide Next, Read, OneValue;
    var list := "a = " + "\"" + (", b = " + "\"");
    ListOfTwo();
    ReadHidden();
    SplitSkips(ALL_QUOTES, list, "", START, "");
    assert list + "" == list && "" + list == list;
  }

  lemma LoneQuote()
    ensures OneValue(SINGLE, "\"") && !OneValue(ALL_QUOTES, "\"")
  {
    assert "\""[1..] == "";
  }

  lemma ListOfTwo()
    ensures List([Pair("a", "\""), Pair("b", "\"")]) == "a = " + "\"" + (", b = " + "\"")
  {
    var (p, q) := (Pair("a", "\""), Pair("b", "\""));
    assert [p, q][1..] == [q];
    assert List([q]) == Entry(q);
    assert List([p, q]) == Entry(p) + ", " + Entry(q);
  }

  lemma ReadHidden()
    ensures !Read(ALL_QUOTES, "a = " + "\"" + (", b = " + "\""), START).commas
  {
    var inside := START.(mode := Literal('"'));
    assert Read(ALL_QUOTES, "a = ", START) == START by {
      assert "a = "[1..] == " = " && " = "[1..] == "= " && "= "[1..] == " " && " "[1..] == "";
      assert Next(ALL_QUOTES, START, 'a') == START && Next(ALL_QUOTES, START, ' ') == START
          && Next(ALL_QUOTES, START, '=') == START;
    }
    assert Read(ALL_QUOTES, "\"", START) == inside by {
      assert "\""[1..] == "";
    }
    assert Read(ALL_QUOTES, ", b = ", inside) == inside by {
      NoQuoteStays(", b = ", inside);
    }
    assert !Read(ALL_QUOTES, "\"", inside).commas by {
      assert "\""[1..] == "";
    }
    hide Read, Next;
    ReadConcat(ALL_QUOTES, "a = " + "\"", ", b = " + "\"", START);
    ReadConcat(ALL_QUOTES, "a = ", "\"", START);
    ReadConcat(ALL_QUOTES, ", b = ", "\"", inside);
  }

  lemma {:induction false} NoQuoteStays(text: string, s: Scan)
    requires s.mode.Literal? && s.mode.c !in text && '\\' !in text
    ensures Read(ALL_QUOTES, text, s) == s
    decreases text
  {
    if text != "" {
      assert text[0] in text;
      NoQuoteStays(text[1..], s);
    }
  }
}
