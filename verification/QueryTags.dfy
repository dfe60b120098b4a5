/** Query tags: the sorted tag list a context carries, and the comment it renders as. */
module QueryTags {
  import opened Wrappers
  import opened StringOrder
  import opened Strings
  import opened Lexing

  /** Go strings are bytes; a character here is one byte. */
  ghost predicate Bytes(s: string) {
    forall i :: 0 <= i < |s| ==> (s[i] as int) < 256
  }

  datatype Tag = Tag(key: string, value: string)

  // ------------------------------------------------------------------ the tag list

  ghost predicate SortedTags(tags: seq<Tag>) {
    forall i, j :: 0 <= i < j < |tags| ==> Less(tags[i].key, tags[j].key)
  }

  function TagMap(tags: seq<Tag>): map<string, string> {
    if tags == [] then map[] else TagMap(tags[..|tags| - 1])[tags[|tags| - 1].key := tags[|tags| - 1].value]
  }

  lemma {:induction false} TagMapKeys(tags: seq<Tag>)
    ensures forall k :: k in TagMap(tags) <==> exists i :: 0 <= i < |tags| && tags[i].key == k
  {
    if tags != [] {
      TagMapKeys(tags[..|tags| - 1]);
    }
  }

  lemma {:induction false} TagMapAt(tags: seq<Tag>, i: nat)
    requires SortedTags(tags) && i < |tags|
    ensures tags[i].key in TagMap(tags) && TagMap(tags)[tags[i].key] == tags[i].value
  {
    if i < |tags| - 1 {
      var front := tags[..|tags| - 1];
      TagMapAt(front, i);
      LessTotal(tags[i].key, tags[|tags| - 1].key);
    }
  }

  /** The list holds the map's pairs and no others. */
  ghost predicate Lists(a: seq<Tag>, m: map<string, string>) {
    && (forall i :: 0 <= i < |a| ==> a[i].key in m && m[a[i].key] == a[i].value)
    && (forall k :: k in m ==> exists i :: 0 <= i < |a| && a[i].key == k)
  }

  /** Two sorted lists that map the same keys to the same values are one list. */
  lemma SameMap(a: seq<Tag>, m: map<string, string>)
    requires SortedTags(a) && Lists(a, m)
    ensures TagMap(a) == m
  {
    TagMapKeys(a);
    forall k | k in m ensures k in TagMap(a) && TagMap(a)[k] == m[k] {
      var i :| 0 <= i < |a| && a[i].key == k;
      TagMapAt(a, i);
    }
    hide Less, TagMap;
    forall k | k in TagMap(a) ensures k in m {
      var i :| 0 <= i < |a| && a[i].key == k;
    }
  }

  /** Places a tag into the sorted list, over the one with its key if there is one. */
  method InsertTag(tags: seq<Tag>, t: Tag) returns (r: seq<Tag>)
    requires SortedTags(tags)
    ensures SortedTags(r) && TagMap(r) == TagMap(tags)[t.key := t.value]
  {
    for i := 0 to |tags|
      invariant forall j :: 0 <= j < i ==> Less(tags[j].key, t.key)
    {
      if tags[i].key == t.key {
        r := tags[i := t];
        Replaced(tags, t, i);
        return;
      }
      if Less(t.key, tags[i].key) {
        r := tags[..i] + [t] + tags[i..];
        Inserted(tags, t, i);
        return;
      }
      LessTotal(tags[i].key, t.key);
    }
    r := tags + [t];
    assert r == tags[..|tags|] + [t] + tags[|tags|..];
    Inserted(tags, t, |tags|);
  }

  lemma Replaced(tags: seq<Tag>, t: Tag, i: nat)
    requires SortedTags(tags) && i < |tags| && tags[i].key == t.key
    ensures var r := tags[i := t]; SortedTags(r) && TagMap(r) == TagMap(tags)[t.key := t.value]
  {
    hide Less, TagMap;
    var r := tags[i := t];
    var m := TagMap(tags)[t.key := t.value];
    assert SortedTags(r);
    TagMapKeys(tags);
    forall j | 0 <= j < |r| ensures r[j].key in m && m[r[j].key] == r[j].value {
      TagMapAt(tags, j);
      if j != i {
        KeysDiffer(tags, i, j);
      }
    }
    forall k | k in m ensures exists j :: 0 <= j < |r| && r[j].key == k {
      if k == t.key {
        assert r[i].key == k;
      } else {
        var j :| 0 <= j < |tags| && tags[j].key == k;
        assert r[j].key == k;
      }
    }
    SameMap(r, m);
  }

  lemma KeysDiffer(tags: seq<Tag>, i: nat, j: nat)
    requires SortedTags(tags) && i < |tags| && j < |tags| && i != j
    ensures tags[i].key != tags[j].key
  {
    LessTotal(tags[i].key, tags[j].key);
  }

  lemma InsertedKeys(tags: seq<Tag>, t: Tag, i: nat)
    requires SortedTags(tags) && i <= |tags|
    requires forall j :: 0 <= j < i ==> Less(tags[j].key, t.key)
    requires i < |tags| ==> Less(t.key, tags[i].key)
    ensures forall j :: i <= j < |tags| ==> Less(t.key, tags[j].key)
    ensures forall j :: 0 <= j < |tags| ==> tags[j].key != t.key
  {
    forall j | i <= j < |tags| ensures Less(t.key, tags[j].key) {
      if j > i {
        LessTransitive(t.key, tags[i].key, tags[j].key);
      }
    }
    forall j | 0 <= j < |tags| ensures tags[j].key != t.key {
      LessTotal(tags[j].key, t.key);
    }
  }

  lemma Inserted(tags: seq<Tag>, t: Tag, i: nat)
    requires SortedTags(tags) && i <= |tags|
    requires forall j :: 0 <= j < i ==> Less(tags[j].key, t.key)
    requires i < |tags| ==> Less(t.key, tags[i].key)
    ensures var r := tags[..i] + [t] + tags[i..]; SortedTags(r) && TagMap(r) == TagMap(tags)[t.key := t.value]
  {
    hide Less, TagMap, SortedTags, Lists;
    var r := tags[..i] + [t] + tags[i..];
    InsertedKeys(tags, t, i);
    InsertedSorted(tags, t, i);
    InsertedFound(tags, t, i);
    SameMap(r, TagMap(tags)[t.key := t.value]);
  }

  function WithTag(tags: seq<Tag>, t: Tag, i: nat): seq<Tag>
    requires i <= |tags|
  {
    tags[..i] + [t] + tags[i..]
  }

  lemma WithTagAt(tags: seq<Tag>, t: Tag, i: nat, j: nat)
    requires i <= |tags| && j <= |tags|
    ensures |WithTag(tags, t, i)| == |tags| + 1
    ensures WithTag(tags, t, i)[j] == if j < i then tags[j] else if j == i then t else tags[j - 1]
  {
  }

  lemma InsertedFound(tags: seq<Tag>, t: Tag, i: nat)
    requires SortedTags(tags) && i <= |tags| && forall j :: 0 <= j < |tags| ==> tags[j].key != t.key
    ensures Lists(WithTag(tags, t, i), TagMap(tags)[t.key := t.value])
  {
    hide Less, TagMap, SortedTags, WithTag;
    var (r, m) := (WithTag(tags, t, i), TagMap(tags)[t.key := t.value]);
    WithTagAt(tags, t, i, i);
    forall j | 0 <= j < |r| ensures r[j].key in m && m[r[j].key] == r[j].value {
      WithTagAt(tags, t, i, j);
      if j < i {
        TagMapAt(tags, j);
      } else if j > i {
        TagMapAt(tags, j - 1);
      }
    }
    forall k | k in m ensures exists j :: 0 <= j < |r| && r[j].key == k {
      if k == t.key {
        assert r[i].key == k;
      } else {
        TagMapKeys(tags);
        var j :| 0 <= j < |tags| && tags[j].key == k;
        var n := if j < i then j else j + 1;
        WithTagAt(tags, t, i, n);
        assert r[n].key == k;
      }
    }
  }

  lemma InsertedSorted(tags: seq<Tag>, t: Tag, i: nat)
    requires SortedTags(tags) && i <= |tags|
    requires forall j :: 0 <= j < i ==> Less(tags[j].key, t.key)
    requires forall j :: i <= j < |tags| ==> Less(t.key, tags[j].key)
    ensures SortedTags(tags[..i] + [t] + tags[i..])
  {
    hide Less;
    var r := tags[..i] + [t] + tags[i..];
    assert forall j :: 0 <= j < |r| ==> r[j] == if j < i then tags[j] else if j == i then t else tags[j - 1];
  }

  /** The tags of a call in order, the unnamed ones ignored. */
  function Overlaid(m: map<string, string>, tags: seq<Tag>): map<string, string> {
    if tags == [] then m
    else
      var before := Overlaid(m, tags[..|tags| - 1]);
      var t := tags[|tags| - 1];
      if t.key == "" then before else before[t.key := t.value]
  }

  /** A new list for the inner context: the outer tags with the new ones over them, the last of a key winning. */
  method WithQueryTags(outer: seq<Tag>, tags: seq<Tag>) returns (inner: seq<Tag>)
    requires SortedTags(outer)
    ensures SortedTags(inner) && TagMap(inner) == Overlaid(TagMap(outer), tags)
  {
    inner := outer;
    for i := 0 to |tags|
      invariant SortedTags(inner) && TagMap(inner) == Overlaid(TagMap(outer), tags[..i])
    {
      hide SortedTags, TagMap;
      assert tags[..i + 1][..i] == tags[..i];
      if tags[i].key == "" {
        continue;
      }
      inner := InsertTag(inner, tags[i]);
    }
    assert tags[..|tags|] == tags;
  }

  // ------------------------------------------------------------- percent encoding

  predicate Unreserved(c: char) {
    'A' <= c <= 'Z' || 'a' <= c <= 'z' || '0' <= c <= '9' || c == '-' || c == '.' || c == '_' || c == '~'
  }

  function HexDigit(n: int): char
    requires 0 <= n < 16
  {
    if n < 10 then ('0' as int + n) as char else ('A' as int + n - 10) as char
  }

  function HexValue(c: char): Option<int> {
    if '0' <= c <= '9' then Some(c as int - '0' as int)
    else if 'A' <= c <= 'F' then Some(c as int - 'A' as int + 10)
    else None
  }

  function EncodeByte(c: char): string
    requires (c as int) < 256
  {
    if Unreserved(c) then [c] else ['%', HexDigit(c as int / 16), HexDigit(c as int % 16)]
  }

  function Encode(s: string): string
    requires Bytes(s)
  {
    if s == "" then "" else Encode(s[..|s| - 1]) + EncodeByte(s[|s| - 1])
  }

  method EncodeTag(s: string) returns (b: string)
    requires Bytes(s)
    ensures b == Encode(s)
  {
    b := "";
    for i := 0 to |s|
      invariant b == Encode(s[..i])
    {
      assert s[..i + 1][..i] == s[..i];
      var c := s[i];
      if Unreserved(c) {
        b := b + [c];
        continue;
      }
      b := b + ['%'];
      b := b + [HexDigit(c as int / 16)];
      b := b + [HexDigit(c as int % 16)];
    }
    assert s[..|s|] == s;
  }

  function Decode(e: string): Option<string> {
    if e == "" then Some("")
    else if e[0] == '%' then
      if |e| < 3 then None
      else
        match (HexValue(e[1]), HexValue(e[2]), Decode(e[3..]))
        case (Some(hi), Some(lo), Some(rest)) => Some([(hi * 16 + lo) as char] + rest)
        case _ => None
    else
      match Decode(e[1..])
      case Some(rest) => Some([e[0]] + rest)
      case None => None
  }

  lemma DecodeByte(c: char, rest: string)
    requires (c as int) < 256 && Decode(rest).Some?
    ensures Decode(EncodeByte(c) + rest) == Some([c] + Decode(rest).value)
  {
    var e := EncodeByte(c) + rest;
    if Unreserved(c) {
      assert e[0] == c && e[1..] == rest;
    } else {
      var n := c as int;
      assert e[0] == '%' && e[1] == HexDigit(n / 16) && e[2] == HexDigit(n % 16) && e[3..] == rest;
      HexBack(n / 16);
      HexBack(n % 16);
      assert n / 16 * 16 + n % 16 == n;
    }
  }

  lemma HexBack(n: int)
    requires 0 <= n < 16
    ensures HexValue(HexDigit(n)) == Some(n)
  {
  }

  lemma {:induction false} DecodeAfter(s: string, rest: string)
    requires Bytes(s) && Decode(rest).Some?
    ensures Decode(Encode(s) + rest) == Some(s + Decode(rest).value)
    decreases s
  {
    hide Decode, EncodeByte;
    if s == "" {
      assert Encode(s) + rest == rest && s + Decode(rest).value == Decode(rest).value;
    } else {
      var (front, c) := (s[..|s| - 1], s[|s| - 1]);
      DecodeByte(c, rest);
      DecodeAfter(front, EncodeByte(c) + rest);
      assert Encode(front) + (EncodeByte(c) + rest) == Encode(s) + rest;
      assert front + ([c] + Decode(rest).value) == s + Decode(rest).value;
    }
  }

  /** Percent-decoding undoes percent-encoding. */
  lemma EncodeRoundTrip(s: string)
    requires Bytes(s)
    ensures Decode(Encode(s)) == Some(s)
  {
    DecodeAfter(s, "");
    assert Encode(s) + "" == Encode(s) && s + "" == s;
  }

  /** The unreserved characters of section 2.3 of RFC 3986, by code. */
  ghost predicate PlainCode(n: int) {
    65 <= n <= 90 || 97 <= n <= 122 || 48 <= n <= 57 || n in {45, 46, 95, 126}
  }

  /** An unreserved character stands for itself; any other is a percent sign and the two digits of its code. */
  lemma EncodeByteExact(c: char)
    requires (c as int) < 256
    ensures PlainCode(c as int) ==> EncodeByte(c) == [c]
    ensures !PlainCode(c as int) ==> |EncodeByte(c)| == 3 && EncodeByte(c)[0] == '%'
  {
  }

  ghost predicate AllPlain(s: string) {
    forall i :: 0 <= i < |s| ==> PlainCode(s[i] as int)
  }

  ghost predicate KeptIffPlain(s: string)
    requires Bytes(s)
  {
    if AllPlain(s) then Encode(s) == s else |Encode(s)| > |s|
  }

  /** So text is left as it is exactly when all of it is unreserved, and is longer otherwise. */
  lemma {:induction false} EncodeKeepsPlain(s: string)
    requires Bytes(s)
    ensures KeptIffPlain(s)
  {
    if s == "" {
      assert Encode("") == "";
    } else {
      var (front, c) := (s[..|s| - 1], s[|s| - 1]);
      assert s == front + [c];
      EncodeKeepsPlain(front);
      hide *;
      KeptNext(front, c);
    }
  }

  lemma KeptNext(front: string, c: char)
    requires Bytes(front + [c]) && (c as int) < 256 && Bytes(front) && KeptIffPlain(front)
    ensures KeptIffPlain(front + [c])
  {
    EncodeByteExact(c);
    PlainNext(front, c);
    EncodeLast(front, c);
    hide EncodeByte, PlainCode, AllPlain, Encode, Bytes;
  }

  lemma EncodeLast(front: string, c: char)
    requires Bytes(front + [c]) && (c as int) < 256
    ensures Bytes(front) && Encode(front + [c]) == Encode(front) + EncodeByte(c)
  {
    var s := front + [c];
    assert s[..|s| - 1] == front && s[|s| - 1] == c && forall i :: 0 <= i < |front| ==> front[i] == s[i];
    hide EncodeByte;
  }

  lemma PlainNext(front: string, c: char)
    ensures AllPlain(front + [c]) <==> AllPlain(front) && PlainCode(c as int)
  {
    hide PlainCode;
    var s := front + [c];
    assert s[|front|] == c && forall i :: 0 <= i < |front| ==> s[i] == front[i];
  }

  /** What encoded text is made of. */
  predicate Safe(s: string) {
    forall i :: 0 <= i < |s| ==> Unreserved(s[i]) || s[i] == '%'
  }

  lemma {:induction false} EncodedIsSafe(s: string)
    requires Bytes(s)
    ensures Safe(Encode(s))
  {
    if s != "" {
      EncodedIsSafe(s[..|s| - 1]);
      var b := EncodeByte(s[|s| - 1]);
      assert Safe(b);
    }
  }

  // ------------------------------------------------------------------ the comment

  ghost predicate ByteTags(tags: seq<Tag>) {
    forall i :: 0 <= i < |tags| ==> Bytes(tags[i].key) && Bytes(tags[i].value)
  }

  function RenderTag(t: Tag): string
    requires Bytes(t.key) && Bytes(t.value)
  {
    Encode(t.key) + "='" + Encode(t.value) + "'"
  }

  function RenderTags(tags: seq<Tag>): string
    requires ByteTags(tags)
  {
    if tags == [] then ""
    else if |tags| == 1 then RenderTag(tags[0])
    else RenderTags(tags[..|tags| - 1]) + "," + RenderTag(tags[|tags| - 1])
  }

  /** The last line of the text holds "--". */
  predicate EndsInLineComment(sql: string) {
    exists i :: 0 <= i < |sql| - 1 && sql[i] == '-' && sql[i + 1] == '-' && '\n' !in sql[i..]
  }

  function Separator(sql: string): string {
    if sql == "" then "" else if EndsInLineComment(sql) then "\n" else " "
  }

  lemma RenderNext(tags: seq<Tag>, i: nat)
    requires ByteTags(tags) && i < |tags|
    ensures RenderTags(tags[..i + 1]) == (if i == 0 then "" else RenderTags(tags[..i]) + ",") + RenderTag(tags[i])
  {
    hide RenderTag;
    assert tags[..i + 1][..i] == tags[..i];
  }

  /** The statement, trimmed, then the tags in a comment of their own. */
  method AppendTagComment(sql: string, tags: seq<Tag>) returns (out: string)
    requires ByteTags(tags)
    ensures var s := TrimRight(sql, IsBlank); out == s + Separator(s) + "/*" + RenderTags(tags) + "*/"
  {
    hide Encode, RenderTags, TrimRight, EndsInLineComment;
    var s := TrimRight(sql, IsBlank);
    var body := "";
    for i := 0 to |tags|
      invariant body == if i == 0 then "" else RenderTags(tags[..i])
    {
      RenderNext(tags, i);
      if i > 0 {
        body := body + ",";
      }
      var key := EncodeTag(tags[i].key);
      var value := EncodeTag(tags[i].value);
      body := body + (key + "='" + value + "'");
    }
    RenderAll(tags);
    out := s + Separator(s) + "/*" + body + "*/";
  }

  lemma RenderAll(tags: seq<Tag>)
    requires ByteTags(tags)
    ensures tags[..|tags|] == tags && (tags == [] ==> RenderTags(tags) == "")
  {
  }

  // --------------------------------------------------------- whether the server sees it

  /** Where the tag comment is written, the server is outside literals and comments. */
  predicate Seen(s: string) {
    Outside(Read(s + Separator(s), START).mode)
  }

  /** The last line opens a comment with "#". */
  ghost predicate HashOpens(s: string) {
    exists i :: 0 <= i < |s| && s[i] == '#' && Outside(Read(s[..i], START).mode) && '\n' !in s[i..]
  }

  /** The text ends inside a literal or a block comment. */
  predicate EndsInside(s: string) {
    var m := Read(s, START).mode;
    m.Quoted? || m.Escaped? || m.Block? || m.Star?
  }

  /** A line comment was opened on the last line, by one mark or the other. */
  lemma {:induction false} LineOpened(s: string)
    ensures Read(s, START).mode == Line ==> HashOpens(s) || EndsInLineComment(s)
    ensures Read(s, START).mode == Dash ==> s != "" && s[|s| - 1] == '-'
  {
    if s != "" {
      var n := |s| - 1;
      var (front, c) := (s[..n], s[n]);
      LineOpened(front);
      if Read(s, START).mode == Line {
        if Read(front, START).mode == Line {
          OpenedStays(front, c);
          assert front + [c] == s;
        } else if c == '#' {
          assert s[n..] == "#";
        } else {
          assert s[n - 1] == front[n - 1] && s[n - 1..] == "--";
        }
      }
    }
  }

  lemma OpenedStays(front: string, c: char)
    requires c != '\n'
    ensures HashOpens(front) ==> HashOpens(front + [c])
    ensures EndsInLineComment(front) ==> EndsInLineComment(front + [c])
  {
    var s := front + [c];
    hide Read;
    if i :| 0 <= i < |front| && front[i] == '#' && Outside(Read(front[..i], START).mode) && '\n' !in front[i..] {
      assert s[i..] == front[i..] + [c] && s[..i] == front[..i] && s[i] == '#';
    }
    if i :| 0 <= i < |front| - 1 && front[i] == '-' && front[i + 1] == '-' && '\n' !in front[i..] {
      assert s[i..] == front[i..] + [c] && s[i] == '-' && s[i + 1] == '-';
    }
  }

  /** Inside a line comment until the line ends. */
  lemma {:induction false} LineStays(text: string, s: Lex)
    requires s.mode == Line && '\n' !in text
    ensures Read(text, s).mode == Line
  {
    if text != "" {
      LineStays(text[..|text| - 1], s);
    }
  }

  lemma HashIsLine(s: string)
    requires HashOpens(s)
    ensures Read(s, START).mode == Line
  {
    hide Read;
    var i :| 0 <= i < |s| && s[i] == '#' && Outside(Read(s[..i], START).mode) && '\n' !in s[i..];
    ReadSnoc(s, i, START);
    QuotesAreQuotes(s[..i], START);
    assert s[i + 1..] == s[i..][1..];
    assert s == s[..i + 1] + s[i + 1..];
    ReadConcat(s[..i + 1], s[i + 1..], START);
    LineStays(s[i + 1..], Read(s[..i + 1], START));
  }

  /**
    The tags are written where the server sees them exactly when the statement does not end inside
    a literal or a block comment, and its last line opens no "#" comment or holds "--" as well.
   */
  lemma CommentIsSeen(s: string)
    ensures Seen(s) <==> !EndsInside(s) && (!HashOpens(s) || EndsInLineComment(s))
  {
    hide HashOpens, EndsInLineComment;
    LineOpened(s);
    if HashOpens(s) {
      HashIsLine(s);
    }
    if s == "" {
      assert s + Separator(s) == s;
    } else {
      var c := if EndsInLineComment(s) then '\n' else ' ';
      assert Separator(s) == [c];
      ReadConcat(s, [c], START);
      ReadOne(c, Read(s, START));
      QuotesAreQuotes(s, START);
      hide Read;
    }
  }

  /** A note after "#" on the last line takes the tags with it. */
  lemma HashTakesTags()
    ensures !Seen("SELECT 1 # note")
  {
    hide Read;
    var s := "SELECT 1 # note";
    CommentIsSeen(s);
    hide Seen;
    assert s[..9] == "SELECT 1 ";
    WordsArePlain(s[..9]);
    assert s[9] == '#' && '\n' !in s[9..];
    assert HashOpens(s);
    assert '-' !in s;
  }

  lemma {:induction false} WordsArePlain(s: string)
    requires forall i :: 0 <= i < |s| ==> IsIdent(s[i]) || s[i] == ' '
    ensures Read(s, START).mode == Plain
  {
    if s != "" {
      WordsArePlain(s[..|s| - 1]);
    }
  }

  /** Where they are seen, the tags are one comment: the statement reads as it did without them. */
  lemma TagsReadAsComment(s: string, tags: seq<Tag>)
    requires ByteTags(tags) && Seen(s)
    ensures var (before, end) := (Read(s + Separator(s), START),
                                  Read(s + Separator(s) + "/*" + RenderTags(tags) + "*/", START));
      && end.mode == Plain && end.depth == before.depth && end.sunk == (before.sunk || before.depth < 0)
  {
    hide RenderTags, Separator;
    var (lead, body) := (s + Separator(s), RenderTags(tags));
    var before := Read(lead, START);
    var within := Read("/*", before);
    assert within == Next(Next(before, '/'), '*') by {
      assert "/*"[..1] == "/" && "/"[..0] == "";
      ReadOne('/', before);
    }
    assert within.mode == Block by {
      QuotesAreQuotes(lead, START);
    }
    TagsAreInert(tags);
    assert '*' !in body && '/' !in body by {
      hide Unreserved;
      assert !Unreserved('*') && !Unreserved('/');
    }
    BlockStays(body, within);
    assert Read("*/", within) == Next(Next(within, '*'), '/') by {
      assert "*/"[..1] == "*" && "*"[..0] == "";
      ReadOne('*', within);
    }
    hide Read;
    ReadConcat(lead + "/*" + body, "*/", START);
    ReadConcat(lead + "/*", body, START);
    ReadConcat(lead, "/*", START);
  }

  lemma {:induction false} BlockStays(text: string, s: Lex)
    requires s.mode == Block && '*' !in text
    ensures Read(text, s) == s
  {
    if text != "" {
      BlockStays(text[..|text| - 1], s);
    }
  }

  /** No byte of the tags can close the comment or open another: it holds no '*', no '/' and no space. */
  lemma {:induction false} TagsAreInert(tags: seq<Tag>)
    requires ByteTags(tags)
    ensures forall i :: 0 <= i < |RenderTags(tags)| ==>
              var c := RenderTags(tags)[i]; Unreserved(c) || c == '%' || c == '=' || c == '\'' || c == ','
  {
    if tags != [] {
      var last := tags[|tags| - 1];
      TagsAreInert(tags[..|tags| - 1]);
      EncodedIsSafe(last.key);
      EncodedIsSafe(last.value);
      hide Encode;
    }
  }

  // ------------------------------------------------------------------- reading back

  lemma {:induction false} IndexAfter(a: string, c: char, rest: string)
    requires c !in a
    ensures IndexOf(a + [c] + rest, c) == |a|
  {
    var s := a + [c] + rest;
    if a == "" {
      assert s[0] == c;
    } else {
      assert s[0] == a[0] && s[1..] == a[1..] + [c] + rest;
      assert a[0] in a;
      IndexAfter(a[1..], c, rest);
    }
  }

  /** One key='value' pair off the front, and what follows it. */
  function ParseTag(s: string): Option<(Tag, string)> {
    var i := IndexOf(s, '=');
    if i < 0 || i + 1 >= |s| || s[i + 1] != '\'' then None
    else
      var rest := s[i + 2..];
      var j := IndexOf(rest, '\'');
      if j < 0 then None
      else
        match (Decode(s[..i]), Decode(rest[..j]))
        case (Some(k), Some(v)) => Some((Tag(k, v), rest[j + 1..]))
        case _ => None
  }

  function ParseTags(s: string): Option<seq<Tag>>
    decreases |s|
  {
    match ParseTag(s)
    case None => None
    case Some((t, rest)) =>
      if rest == "" then Some([t])
      else if rest[0] != ',' || |rest| > |s| then None
      else
        match ParseTags(rest[1..])
        case None => None
        case Some(more) => Some([t] + more)
  }

  lemma ParseRendered(t: Tag, rest: string)
    requires Bytes(t.key) && Bytes(t.value)
    ensures ParseTag(RenderTag(t) + rest) == Some((t, rest))
  {
    hide Encode, Decode, IndexOf, Unreserved;
    var (k, v) := (Encode(t.key), Encode(t.value));
    NoMarks(t.key);
    NoMarks(t.value);
    EncodeRoundTrip(t.key);
    EncodeRoundTrip(t.value);
    var tail := v + ['\''] + rest;
    var s := RenderTag(t) + rest;
    assert s == k + ['='] + (['\''] + tail);
    IndexAfter(k, '=', ['\''] + tail);
    IndexAfter(v, '\'', rest);
    hide RenderTag;
    assert s[..|k|] == k && s[|k| + 1] == '\'' && s[|k| + 2..] == tail;
    assert tail[..|v|] == v && tail[|v| + 1..] == rest;
  }

  lemma NoMarks(s: string)
    requires Bytes(s)
    ensures '=' !in Encode(s) && '\'' !in Encode(s)
  {
    hide Encode;
    EncodedIsSafe(s);
  }

  /** Rendering from the front, as a parser meets it. */
  lemma {:induction false} RenderFront(tags: seq<Tag>)
    requires ByteTags(tags) && |tags| > 1
    ensures RenderTags(tags) == RenderTag(tags[0]) + ("," + RenderTags(tags[1..]))
  {
    hide RenderTag;
    var last := tags[|tags| - 1];
    var front := tags[..|tags| - 1];
    var rest := tags[1..];
    if |tags| == 2 {
      assert front == [tags[0]] && rest == [last];
      assert RenderTags(front) == RenderTag(tags[0]) && RenderTags(rest) == RenderTag(last);
      assert RenderTags(tags) == RenderTag(tags[0]) + "," + RenderTag(last);
    } else {
      RenderFront(front);
      assert front[1..] == rest[..|rest| - 1];
      assert RenderTags(rest) == RenderTags(front[1..]) + "," + RenderTag(last);
    }
  }

  /** The comment's text parses back to the tags it was rendered from. */
  lemma {:induction false} TagsRoundTrip(tags: seq<Tag>)
    requires ByteTags(tags) && tags != []
    ensures ParseTags(RenderTags(tags)) == Some(tags)
  {
    hide RenderTag, ParseTag;
    var s := RenderTags(tags);
    if |tags| == 1 {
      ParseRendered(tags[0], "");
      assert RenderTag(tags[0]) + "" == s;
      assert tags == [tags[0]];
    } else {
      var more := RenderTags(tags[1..]);
      RenderFront(tags);
      ParseRendered(tags[0], "," + more);
      TagsRoundTrip(tags[1..]);
      assert ("," + more)[1..] == more;
      assert tags == [tags[0]] + tags[1..];
    }
  }
}
