/** Which verdict every pair of declared and live type gets, and which numbers widen to which. */
module TypeVerdicts {
  import opened Wrappers
  import opened Numerals
  import opened Strings
  import opened TypeChange

  /** Outside quotes the blanks, by code: tab, line feed, carriage return and space. */
  ghost predicate BlankCode(n: int) {
    n in {9, 10, 13, 32}
  }

  /** A blank makes no difference to a type outside single quotes; every other character does, and inside them all. */
  lemma BlankIsDropped(a: string, c: char, b: string)
    ensures !QuoteAfter(a, false) && BlankCode(c as int) ==> NormalizeType(a + [c] + b) == NormalizeType(a + b)
    ensures QuoteAfter(a, false) || !BlankCode(c as int) ==>
      |NormalizeType(a + [c])| == |NormalizeType(a)| + 1 && NormalizeType(a + [c])[|NormalizeType(a)|] == c
  {
    var q := QuoteAfter(a, false);
    SqueezeConcat(a, [c], false);
    SqueezeConcat(a, b, false);
    SqueezeConcat(a, [c] + b, false);
    assert a + [c] + b == a + ([c] + b) && ([c] + b)[1..] == b && [c][1..] == "";
    assert IsBlank(c) <==> BlankCode(c as int);
  }

  // ------------------------------------------------------------------ types as written

  /** A type without blanks, and without the two wrappers that are told apart from it. */
  ghost predicate Bare(base: string) {
    NormalizeType(base) == base && !HasPrefix(base, "Nullable(") && !HasPrefix(base, "LowCardinality(")
  }

  function Wrapped(wrapper: string, t: string): string {
    wrapper + "(" + t + ")"
  }

  function Spelled(base: string, nullable: bool, lc: bool): string {
    var t := if nullable then Wrapped("Nullable", base) else base;
    if lc then Wrapped("LowCardinality", t) else t
  }

  lemma WrappedReads(wrapper: string, t: string)
    requires NormalizeType(t) == t && forall i :: 0 <= i < |wrapper| ==> wrapper[i] != '\'' && !IsBlank(wrapper[i])
    ensures var s := Wrapped(wrapper, t);
      NormalizeType(s) == s && UnwrapType(s, wrapper) == Some(t) && HasPrefix(s, wrapper + "(")
  {
    var s := Wrapped(wrapper, t);
    WrappedIn(wrapper + "(", t);
    hide NormalizeType;
    assert s[..|wrapper| + 1] == wrapper + "(" && s[|wrapper| + 1..|s| - 1] == t;
  }

  lemma NotWrapped(s: string, wrapper: string)
    requires NormalizeType(s) == s && !HasPrefix(s, wrapper + "(")
    ensures UnwrapType(s, wrapper) == None
  {
  }

  /** Two types under wrappers that begin differently. */
  lemma StartsApart(s: string)
    ensures HasPrefix(s, "Nullable(") ==> !HasPrefix(s, "LowCardinality(")
  {
    PrefixStarts(s, "Nullable(");
    PrefixStarts(s, "LowCardinality(");
  }

  /** A spelled type reads back as what it was spelled from. */
  lemma SpelledReads(base: string, nullable: bool, lc: bool)
    requires Bare(base)
    ensures var s := Spelled(base, nullable, lc);
      && NormalizeType(s) == s && (HasPrefix(s, "LowCardinality(") <==> lc)
      && StripLowCardinality(s) == Spelled(base, nullable, false)
      && SplitNullable(s) == (if lc then (s, false) else (base, nullable))
      && (lc ==> UnwrapType(s, "LowCardinality").Some?)
  {
    var t := if nullable then Wrapped("Nullable", base) else base;
    var s := Spelled(base, nullable, lc);
    assert "Nullable" + "(" == "Nullable(" && "LowCardinality" + "(" == "LowCardinality(";
    WrappedReads("Nullable", base);
    StartsApart(t);
    assert NormalizeType(t) == t;
    WrappedReads("LowCardinality", t);
    StartsApart(s);
    hide NormalizeType, HasPrefix, UnwrapType, Wrapped;
    if !lc {
      NotWrapped(s, "LowCardinality");
    }
    if lc || !nullable {
      NotWrapped(s, "Nullable");
    }
  }

  /** Different spellings are different types. */
  lemma SpelledApart(a: string, b: string, aNull: bool, bNull: bool, aLc: bool, bLc: bool)
    requires Bare(a) && Bare(b)
    ensures Spelled(a, aNull, aLc) == Spelled(b, bNull, bLc) <==> a == b && aNull == bNull && aLc == bLc
  {
    SpelledReads(a, aNull, aLc);
    SpelledReads(b, bNull, bLc);
    SpelledReads(a, aNull, false);
    SpelledReads(b, bNull, false);
    hide NormalizeType, StripLowCardinality, SplitNullable, HasPrefix, UnwrapType, Spelled;
  }

  // ---------------------------------------------------------------------- the verdicts

  /**
    The verdict on every change, read off the two types. The encoding alone is no difference; a key
    column is refused any other. NULL is lost where the declared type is not Nullable on the outside;
    an encoding is where it does not fit the declared base; a base that is the same or widens keeps
    every value, and only then is the change called a widening.
   */
  lemma VerdictExact(want: string, live: string, inKey: bool, wBase: string, wNull: bool, wLc: bool, lBase: string,
      lNull: bool, lLc: bool)
    requires Bare(wBase) && Bare(lBase)
    requires NormalizeType(want) == Spelled(wBase, wNull, wLc) && NormalizeType(live) == Spelled(lBase, lNull, lLc)
    ensures var c := ClassifyTypeChange(want, live, inKey);
      var keeps := !wLc && (wBase == lBase || Widens(lBase, wBase));
      if wBase == lBase && wNull == lNull && (lLc || !wLc) then
        c == Change(Unchanged, NoCause, "", lLc && !wLc, false)
      else if inKey then c == Change(Refused, KeyColumn, "", lLc, false)
      else if lNull && (wLc || !wNull) then
        c == Change(Unprovable, NullRemoval, want, lLc, true)
      else if lLc && (wLc || wBase != "String") then
        c == Change(Unprovable, LowCardinalityWrapper, want, true, !keeps)
      else
        && c.to == (if lLc then "LowCardinality(" + want + ")" else want) && c.lowCardinality == lLc
        && (keeps <==> c.verdict == Widening && c.cause == NoCause && !c.valuesAtRisk)
        && (!keeps <==> c.verdict == Unprovable && c.cause == UnprovableCast && c.valuesAtRisk)
  {
    SpelledReads(wBase, wNull, wLc);
    SpelledReads(lBase, lNull, lLc);
    SpelledApart(wBase, lBase, wNull, lNull, wLc, lLc);
    SpelledApart(wBase, lBase, wNull, lNull, wLc, false);
    EncodedNeverWidens(lBase, wBase, wNull);
    SpelledReads(lBase, lNull, false);
    hide NormalizeType, StripLowCardinality, SplitNullable, Widens, Spelled, UnwrapType;
    NormalizedIs(wBase, "String");
  }

  lemma NormalizedIs(base: string, name: string)
    requires Bare(base)
    ensures NormalizeType(base) == name <==> base == name
  {
  }

  lemma EncodedNeverWidens(from: string, base: string, nullable: bool)
    requires Bare(base)
    ensures !Widens(from, Spelled(base, nullable, true))
  {
    SpelledReads(base, nullable, true);
    WrappedIsBare(Spelled(base, nullable, true));
    hide NormalizeType, NumericType, DecimalType, Spelled, UnwrapType;
  }

  // -------------------------------------------------------------------- what widens to what

  /** How the server writes a number type and a decimal type. */
  function NumberText(family: string, bits: nat): string {
    family + Formatted(bits)
  }

  function DecimalArgs(precision: nat, scale: nat): string {
    Formatted(precision) + "," + Formatted(scale)
  }

  function DecimalText(precision: nat, scale: nat): string {
    Wrapped("Decimal", DecimalArgs(precision, scale))
  }

  ghost predicate Fits(n: nat) {
    n < 0x8000_0000_0000_0000
  }

  lemma DigitsArePlain(n: nat)
    ensures forall i :: 0 <= i < |Formatted(n)| ==> '0' <= Formatted(n)[i] <= '9'
    ensures Formatted(n) != ""
  {
    DecimalDigits(n);
  }

  function FamilyOf(name: string): Family {
    if name == "UInt" then Family.UInt else if name == "Int" then Family.Int else Family.Float
  }

  lemma NumberReads(family: string, bits: nat)
    requires family in {"UInt", "Int", "Float"} && Fits(bits)
    ensures var t := NumberText(family, bits);
      && NormalizeType(t) == t
      && NumericType(t) == Some(Numeric(FamilyOf(family), bits))
  {
    var t := NumberText(family, bits);
    DigitsArePlain(bits);
    FormattedParses(bits);
    hide Formatted, Atoi;
    assert t[|family|..] == Formatted(bits) && t[..|family|] == family;
    PlainNumber(family, Formatted(bits));
    hide Squeeze;
    PrefixStarts(t, "UInt");
    PrefixStarts(t, "Int");
  }

  lemma PlainNumber(family: string, digits: string)
    requires family in {"UInt", "Int", "Float"} && forall i :: 0 <= i < |digits| ==> '0' <= digits[i] <= '9'
    ensures NormalizeType(family + digits) == family + digits
  {
    PlainText(family);
    PlainText(digits);
    SqueezeConcat(family, digits, false);
  }

  /** Numbers widen within their family, to more bits; nothing else of theirs does. */
  lemma NumbersWiden(f: string, a: nat, g: string, b: nat)
    requires f in {"UInt", "Int", "Float"} && g in {"UInt", "Int", "Float"} && Fits(a) && Fits(b)
    ensures Widens(NumberText(f, a), NumberText(g, b)) <==> f == g && a < b
  {
    NumberReads(f, a);
    NumberReads(g, b);
    hide NormalizeType, NumericType, DecimalType, NumberText;
    assert f == "UInt" || f == "Int" || f == "Float";
    assert g == "UInt" || g == "Int" || g == "Float";
  }

  lemma {:induction false} FirstComma(a: string, b: string)
    requires forall i :: 0 <= i < |a| ==> a[i] != ','
    ensures IndexOf(a + "," + b, ',') == |a|
  {
    var s := a + "," + b;
    if a == "" {
      assert s[0] == ',';
    } else {
      assert s[1..] == a[1..] + "," + b;
      FirstComma(a[1..], b);
    }
  }

  lemma DecimalReads(p: nat, q: nat)
    requires Fits(p) && Fits(q)
    ensures var t := DecimalText(p, q);
      NormalizeType(t) == t && DecimalType(t) == Some(TypeChange.Decimal(p, q)) && NumericType(t) == None
  {
    var (args, t) := (DecimalArgs(p, q), DecimalText(p, q));
    DigitsArePlain(p);
    DigitsArePlain(q);
    FormattedParses(p);
    FormattedParses(q);
    hide Formatted, Atoi;
    PlainText(args);
    FirstComma(Formatted(p), Formatted(q));
    assert args[..|Formatted(p)|] == Formatted(p) && args[|Formatted(p)| + 1..] == Formatted(q);
    WrappedReads("Decimal", args);
    hide Squeeze, UnwrapType;
    DecimalIsNotNumeric(t);
  }

  /** Decimals widen to more digits at the same scale, and a number and a decimal never to one another. */
  lemma DecimalsWiden(p: nat, s: nat, q: nat, r: nat, f: string, bits: nat)
    requires Fits(p) && Fits(s) && Fits(q) && Fits(r) && f in {"UInt", "Int", "Float"} && Fits(bits)
    ensures Widens(DecimalText(p, s), DecimalText(q, r)) <==> s == r && p < q
    ensures !Widens(DecimalText(p, s), NumberText(f, bits)) && !Widens(NumberText(f, bits), DecimalText(p, s))
  {
    DecimalReads(p, s);
    DecimalReads(q, r);
    NumberReads(f, bits);
    NumberNotDecimal(f, bits);
    hide NormalizeType, NumericType, DecimalType, NumberText, DecimalText;
  }

  lemma NumberNotDecimal(f: string, bits: nat)
    requires f in {"UInt", "Int", "Float"} && Fits(bits)
    ensures DecimalType(NumberText(f, bits)) == None
  {
    NumberReads(f, bits);
    DecimalIsNotNumeric(NumberText(f, bits));
  }

  /** A column of Int32 declared Int64: a widening, and the statement sets the declared type. */
  lemma IntegersWiden()
    ensures ClassifyTypeChange("Int64", "Int32", false) == Change(Widening, NoCause, "Int64", false, false)
  {
    assert Formatted(64) == "64" && Formatted(32) == "32";
    assert "Int" + "64" == "Int64" && "Int" + "32" == "Int32";
    NumbersWiden("Int", 32, "Int", 64);
    NumberReads("Int", 32);
    NumberReads("Int", 64);
    assert "Int64"[0] == 'I' && "Int32"[0] == 'I';
    PrefixStarts("Int64", "Nullable(");
    PrefixStarts("Int64", "LowCardinality(");
    PrefixStarts("Int32", "Nullable(");
    PrefixStarts("Int32", "LowCardinality(");
    VerdictExact("Int64", "Int32", false, "Int64", false, false, "Int32", false, false);
  }
}
