/**
  What ALTER TABLE … MODIFY COLUMN can do about a column whose live type is not
  the declared one, and what "widens" promises about the stored values.
 */
module TypeChange {
  import opened Wrappers
  import opened Numerals
  import opened Strings

  // ------------------------------------------------------------- normalisation

  /** What is left of s once whitespace outside single quotes is dropped. */
  function Squeeze(s: string, inQuote: bool): string {
    if s == "" then ""
    else if s[0] == '\'' then [s[0]] + Squeeze(s[1..], !inQuote)
    else if !inQuote && IsBlank(s[0]) then Squeeze(s[1..], inQuote)
    else [s[0]] + Squeeze(s[1..], inQuote)
  }

  function NormalizeType(s: string): string {
    Squeeze(s, false)
  }

  method Normalize(s: string) returns (b: string)
    ensures b == NormalizeType(s)
  {
    b := "";
    var inQuote := false;
    assert s[0..] == s && s[|s|..] == "";
    for i := 0 to |s|
      invariant b + Squeeze(s[i..], inQuote) == NormalizeType(s)
    {
      SqueezeStep(b, s, i, inQuote);
      hide Squeeze;
      if s[i] == '\'' {
        inQuote := !inQuote;
      } else if !inQuote && IsBlank(s[i]) {
        continue;
      }
      b := b + [s[i]];
    }
  }

  lemma SqueezeStep(b: string, s: string, i: nat, q: bool)
    requires i < |s|
    ensures var q' := if s[i] == '\'' then !q else q;
      b + Squeeze(s[i..], q) ==
        (if s[i] != '\'' && !q && IsBlank(s[i]) then b else b + [s[i]]) + Squeeze(s[i + 1..], q')
  {
    assert s[i..][1..] == s[i + 1..];
  }

  function QuoteAfter(s: string, inQuote: bool): bool {
    if s == "" then inQuote
    else QuoteAfter(s[1..], if s[0] == '\'' then !inQuote else inQuote)
  }

  lemma {:induction false} SqueezeConcat(a: string, b: string, q: bool)
    ensures Squeeze(a + b, q) == Squeeze(a, q) + Squeeze(b, QuoteAfter(a, q))
  {
    if a == "" {
      assert a + b == b;
    } else {
      assert (a + b)[1..] == a[1..] + b;
      SqueezeConcat(a[1..], b, if a[0] == '\'' then !q else q);
    }
  }

  lemma {:induction false} SqueezeIdempotent(s: string, q: bool)
    ensures Squeeze(Squeeze(s, q), q) == Squeeze(s, q)
  {
    if s != "" {
      var q' := if s[0] == '\'' then !q else q;
      SqueezeIdempotent(s[1..], q');
      if !(s[0] != '\'' && !q && IsBlank(s[0])) {
        assert Squeeze(s, q)[1..] == Squeeze(s[1..], q');
      }
    }
  }

  lemma NormalizeTwice(s: string)
    ensures NormalizeType(NormalizeType(s)) == NormalizeType(s)
  {
    SqueezeIdempotent(s, false);
  }

  // ------------------------------------------------------------------ wrappers

  /** The inside of "wrapper(inner)", when the type has that shape. */
  function UnwrapType(t: string, wrapper: string): Option<string> {
    var n := NormalizeType(t);
    if HasPrefix(n, wrapper + "(") && n[|n| - 1] == ')' && |n| > |wrapper| + 1
    then Some(n[|wrapper| + 1..|n| - 1])
    else None
  }

  function StripLowCardinality(t: string): string {
    match UnwrapType(t, "LowCardinality")
    case Some(inner) => inner
    case None => t
  }

  function SplitNullable(t: string): (string, bool) {
    match UnwrapType(t, "Nullable")
    case Some(inner) => (inner, true)
    case None => (t, false)
  }

  // --------------------------------------------------------------- number types

  datatype Family = UInt | Int | Float
  datatype Numeric = Numeric(family: Family, bits: int)
  datatype Decimal = Decimal(precision: int, scale: int)

  function FamilyName(f: Family): string {
    match f
    case UInt => "UInt"
    case Int => "Int"
    case Float => "Float"
  }

  function InFamily(t: string, f: Family): Option<Numeric>
    requires HasPrefix(t, FamilyName(f))
  {
    match Atoi(t[|FamilyName(f)|..])
    case Some(bits) => Some(Numeric(f, bits))
    case None => None
  }

  /** UInt before Int: the first prefix that matches decides. */
  function NumericType(t: string): Option<Numeric> {
    if HasPrefix(t, "UInt") then InFamily(t, UInt)
    else if HasPrefix(t, "Int") then InFamily(t, Int)
    else if HasPrefix(t, "Float") then InFamily(t, Float)
    else None
  }

  function DecimalType(t: string): Option<Decimal> {
    match UnwrapType(t, "Decimal")
    case None => None
    case Some(args) =>
      var comma := IndexOf(args, ',');
      if comma < 0 then None
      else
        match (Atoi(args[..comma]), Atoi(args[comma + 1..]))
        case (Some(p), Some(s)) => Some(Decimal(p, s))
        case _ => None
  }

  predicate Widens(from: string, to: string) {
    var (f, t) := (NormalizeType(from), NormalizeType(to));
    match NumericType(f)
    case Some(a) =>
      (match NumericType(t)
       case Some(b) => a.family == b.family && b.bits > a.bits
       case None => false)
    case None =>
      match (DecimalType(f), DecimalType(t))
      case (Some(a), Some(b)) => a.scale == b.scale && b.precision > a.precision
      case _ => false
  }

  // -------------------------------------------------------------- classification

  datatype Verdict = Unchanged | Widening | Unprovable | Refused
  datatype Cause = NoCause | KeyColumn | NullRemoval | LowCardinalityWrapper | UnprovableCast

  /** `to` is the type a MODIFY COLUMN should set, empty when there is none to write. */
  datatype Change = Change(verdict: Verdict, cause: Cause, to: string, lowCardinality: bool, valuesAtRisk: bool)

  predicate LowCardinalitySafe(base: string) {
    NormalizeType(base) == "String"
  }

  function ClassifyTypeChange(want: string, live: string, inKey: bool): Change {
    var w := NormalizeType(want);
    var l := NormalizeType(live);
    if w == l then Change(Unchanged, NoCause, "", false, false)
    else
      var stripped := StripLowCardinality(l);
      var lc := stripped != l;
      if stripped == w then Change(Unchanged, NoCause, "", lc, false)
      else if inKey then Change(Refused, KeyColumn, "", lc, false)
      else
        var (wBase, wNull) := SplitNullable(w);
        var (lBase, lNull) := SplitNullable(stripped);
        if lNull && !wNull then Change(Unprovable, NullRemoval, want, lc, true)
        else
          var keeps := wBase == lBase || Widens(lBase, wBase);
          if lc && !LowCardinalitySafe(wBase) then Change(Unprovable, LowCardinalityWrapper, want, lc, !keeps)
          else
            var to := if lc then "LowCardinality(" + want + ")" else want;
            if keeps then Change(Widening, NoCause, to, lc, false)
            else Change(Unprovable, UnprovableCast, to, lc, true)
  }

  // --------------------------------------------------------- what settles a change

  lemma NormalizeWrapped(t: string)
    ensures NormalizeType("LowCardinality(" + t + ")") == "LowCardinality(" + NormalizeType(t) + ")"
  {
    WrappedIn("LowCardinality(", t);
  }

  lemma WrappedIn(open: string, t: string)
    requires forall i :: 0 <= i < |open| ==> open[i] != '\'' && !IsBlank(open[i])
    ensures NormalizeType(open + t + ")") == open + NormalizeType(t) + ")"
  {
    PlainText(open);
    Closing(QuoteAfter(open + t, false));
    hide Squeeze, QuoteAfter;
    SqueezeConcat(open + t, ")", false);
    SqueezeConcat(open, t, false);
  }

  lemma Closing(q: bool)
    ensures Squeeze(")", q) == ")"
  {
    assert ")"[1..] == "";
  }

  lemma {:induction false} PlainText(s: string)
    requires forall i :: 0 <= i < |s| ==> s[i] != '\'' && !IsBlank(s[i])
    ensures Squeeze(s, false) == s && !QuoteAfter(s, false)
  {
    if s != "" {
      PlainText(s[1..]);
    }
  }

  lemma StripWrapped(t: string)
    ensures StripLowCardinality(NormalizeType("LowCardinality(" + t + ")")) == NormalizeType(t)
  {
    NormalizeWrapped(t);
    NormalizeTwice("LowCardinality(" + t + ")");
    var n := "LowCardinality(" + NormalizeType(t) + ")";
    assert n[..15] == "LowCardinality(" && n[15..|n| - 1] == NormalizeType(t);
  }

  /** A spelling the server may echo back in place of the one it was given. */
  ghost predicate SameType(a: string, b: string) {
    NormalizeType(a) == NormalizeType(b)
  }

  /** Spelling is not a difference on either side. */
  lemma SpellingIsNoChange(want: string, live: string, echo: string, inKey: bool)
    requires SameType(live, echo)
    ensures ClassifyTypeChange(want, echo, inKey) == ClassifyTypeChange(want, live, inKey)
  {
  }

  /** The column holds the declared type, or that type under a LowCardinality encoding. */
  ghost predicate Settled(want: string, live: string) {
    SameType(want, live) || StripLowCardinality(NormalizeType(live)) == NormalizeType(want)
  }

  lemma UnchangedIsSettled(want: string, live: string, inKey: bool)
    ensures ClassifyTypeChange(want, live, inKey).verdict == Unchanged <==> Settled(want, live)
    ensures ClassifyTypeChange(want, live, inKey).verdict == Refused <==> inKey && !Settled(want, live)
  {
    hide NormalizeType, StripLowCardinality, SplitNullable, Widens, LowCardinalitySafe;
  }

  /** Setting the type any change asks for leaves nothing to change, however the server spells it. */
  lemma ChangeSettles(want: string, live: string, inKey: bool, echo: string)
    requires var c := ClassifyTypeChange(want, live, inKey);
      c.verdict != Unchanged && c.verdict != Refused && SameType(c.to, echo)
    ensures forall k :: ClassifyTypeChange(want, echo, k).verdict == Unchanged
    ensures ClassifyTypeChange(want, live, inKey).to != "" || NormalizeType(want) == ""
  {
    var c := ClassifyTypeChange(want, live, inKey);
    assert c.to == want || c.to == "LowCardinality(" + want + ")" by {
      hide NormalizeType, StripLowCardinality, SplitNullable, Widens, LowCardinalitySafe;
    }
    StripWrapped(want);
    assert Settled(want, echo);
    forall k ensures ClassifyTypeChange(want, echo, k).verdict == Unchanged {
      UnchangedIsSettled(want, echo, k);
    }
  }

  // ------------------------------------------------------- the order of widening

  lemma WidensTransitive(a: string, b: string, c: string)
    requires Widens(a, b) && Widens(b, c)
    ensures Widens(a, c)
  {
    NormalizeTwice(b);
    DecimalIsNotNumeric(NormalizeType(b));
    hide NormalizeType, DecimalType, NumericType;
  }

  lemma WidensIrreflexive(a: string)
    ensures !Widens(a, a)
  {
  }

  lemma DecimalIsNotNumeric(t: string)
    requires NormalizeType(t) == t
    ensures DecimalType(t).Some? ==> NumericType(t).None?
  {
    hide NormalizeType, Atoi;
    if DecimalType(t).Some? {
      PrefixStarts(t, "Decimal(");
      PrefixStarts(t, "UInt");
      PrefixStarts(t, "Int");
      PrefixStarts(t, "Float");
    }
  }

  lemma PrefixStarts(t: string, p: string)
    requires p != ""
    ensures HasPrefix(t, p) ==> t != "" && t[0] == p[0]
  {
    assert HasPrefix(t, p) ==> t[0] == t[..|p|][0];
  }

  // ------------------------------------------------------------ the value domains

  datatype Value = Null | Integer(n: int) | Fixed(unscaled: int, scale: int) | Text(s: string)

  function Pow(b: nat, e: nat): nat {
    if e == 0 then 1 else b * Pow(b, e - 1)
  }

  lemma MulGrows(b: nat, x: nat)
    requires b >= 1
    ensures b * x >= x
  {
  }

  lemma {:induction false} PowGrows(b: nat, d: nat, e: nat)
    requires b >= 1 && d <= e
    ensures 1 <= Pow(b, d) <= Pow(b, e)
    decreases e
  {
    if d < e {
      PowGrows(b, d, e - 1);
      MulGrows(b, Pow(b, e - 1));
    } else if d > 0 {
      PowGrows(b, d - 1, d - 1);
      MulGrows(b, Pow(b, d - 1));
    }
  }

  /** The values of the types that are neither integers nor decimals, left open. */
  type Domain = (string, Value) -> bool

  ghost predicate WiderFloat(a: Option<Numeric>, b: Option<Numeric>) {
    a.Some? && b.Some? && a.value.family == b.value.family == Float && a.value.bits < b.value.bits
  }

  /** A wider float holds every value of a narrower one. */
  ghost predicate FloatsGrow(other: Domain) {
    forall a, b, v ::
      WiderFloat(NumericType(a), NumericType(b)) && other(a, v) ==> other(b, v)
  }

  ghost predicate BaseHolds(base: string, v: Value, other: Domain) {
    match NumericType(base)
    case Some(Numeric(UInt, bits)) => bits >= 0 && v.Integer? && 0 <= v.n < Pow(2, bits)
    case Some(Numeric(Int, bits)) => bits >= 1 && v.Integer? && 0 - Pow(2, bits - 1) <= v.n < Pow(2, bits - 1)
    case Some(Numeric(Float, _)) => other(base, v)
    case None =>
      match DecimalType(base)
      case Some(Decimal(p, s)) => p >= 0 && v.Fixed? && v.scale == s && 0 - Pow(10, p) < v.unscaled < Pow(10, p)
      case None => other(base, v)
  }

  /** v is a value of the type: NULL where it is Nullable, and what its base holds. */
  ghost predicate Holds(t: string, v: Value, other: Domain) {
    var (base, nullable) := SplitNullable(StripLowCardinality(NormalizeType(t)));
    if v == Null then nullable else BaseHolds(base, v, other)
  }

  lemma WidensKeepsValues(from: string, to: string, v: Value, other: Domain)
    requires NormalizeType(from) == from && NormalizeType(to) == to
    requires Widens(from, to) && FloatsGrow(other) && BaseHolds(from, v, other)
    ensures BaseHolds(to, v, other)
  {
    DecimalIsNotNumeric(to);
    hide NormalizeType, DecimalType, NumericType;
    if NumericType(from).Some? {
      var (a, b) := (NumericType(from).value, NumericType(to).value);
      match a.family
      case UInt => PowGrows(2, a.bits, b.bits);
      case Int => PowGrows(2, a.bits - 1, b.bits - 1);
      case Float =>
    } else {
      PowGrows(10, DecimalType(from).value.precision, DecimalType(to).value.precision);
    }
  }

  lemma NormalPrefix(s: string, i: nat, q: bool)
    requires Squeeze(s, q) == s && i <= |s|
    ensures Squeeze(s[..i], q) == s[..i] && Squeeze(s[i..], QuoteAfter(s[..i], q)) == s[i..]
  {
    SqueezeConcat(s[..i], s[i..], q);
    assert s[..i] + s[i..] == s;
    SqueezeShrinks(s[..i], q);
    SqueezeShrinks(s[i..], QuoteAfter(s[..i], q));
  }

  lemma {:induction false} SqueezeShrinks(s: string, q: bool)
    ensures |Squeeze(s, q)| <= |s|
  {
    if s != "" {
      SqueezeShrinks(s[1..], if s[0] == '\'' then !q else q);
    }
  }

  lemma InnerIsNormal(t: string, wrapper: string)
    requires forall i :: 0 <= i < |wrapper| ==> wrapper[i] != '\'' && !IsBlank(wrapper[i])
    ensures UnwrapType(t, wrapper).Some? ==> NormalizeType(UnwrapType(t, wrapper).value) == UnwrapType(t, wrapper).value
  {
    if UnwrapType(t, wrapper).Some? {
      var n := NormalizeType(t);
      var inner := UnwrapType(t, wrapper).value;
      NormalizeTwice(t);
      NormalPrefix(n, |n| - 1, false);
      var front := n[..|n| - 1];
      assert front[..|wrapper| + 1] == wrapper + "(" && front[|wrapper| + 1..] == inner;
      PlainText(wrapper + "(");
      NormalPrefix(front, |wrapper| + 1, false);
    }
  }

  lemma BaseIsNormal(t: string)
    requires NormalizeType(t) == t
    ensures NormalizeType(SplitNullable(t).0) == SplitNullable(t).0
    ensures NormalizeType(StripLowCardinality(t)) == StripLowCardinality(t)
  {
    InnerIsNormal(t, "Nullable");
    InnerIsNormal(t, "LowCardinality");
  }

  /** A statement is written and the values are said to survive it; every widening is one. */
  ghost predicate ClaimsSafety(c: Change) {
    c.verdict == Widening || (c.verdict == Unprovable && !c.valuesAtRisk)
  }

  lemma WrappedIsBare(w: string)
    requires NormalizeType(w) == w && UnwrapType(w, "LowCardinality").Some?
    ensures SplitNullable(w) == (w, false) && NumericType(w).None? && DecimalType(w).None?
  {
    PrefixStarts(w, "LowCardinality(");
    PrefixStarts(w, "Nullable(");
    PrefixStarts(w, "Decimal(");
    PrefixStarts(w, "UInt");
    PrefixStarts(w, "Int");
    PrefixStarts(w, "Float");
    hide NormalizeType, Atoi;
  }

  /** A declared LowCardinality type is never the target of a change claimed safe. */
  lemma SafeTargetIsPlain(want: string, live: string)
    requires ClaimsSafety(ClassifyTypeChange(want, live, false))
    ensures StripLowCardinality(NormalizeType(want)) == NormalizeType(want)
  {
    hide Squeeze, NormalizeType, StripLowCardinality, SplitNullable, NumericType, DecimalType, LowCardinalitySafe,
         UnwrapType;
    var w := NormalizeType(want);
    NormalizeTwice(want);
    StripSelf(w);
    if UnwrapType(w, "LowCardinality").Some? {
      WrappedIsBare(w);
      SplitSelf(StripLowCardinality(NormalizeType(live)));
      assert false;
    }
  }

  lemma StripSelf(t: string)
    ensures UnwrapType(t, "LowCardinality").None? ==> StripLowCardinality(t) == t
  {
  }

  lemma SplitSelf(t: string)
    ensures SplitNullable(t).1 || SplitNullable(t).0 == t
  {
  }

  /** A change not reported as a risk to values keeps every one, NULL and encoding included. */
  lemma SafeChangeKeepsValues(want: string, live: string, inKey: bool, v: Value, other: Domain)
    requires ClaimsSafety(ClassifyTypeChange(want, live, inKey))
    requires FloatsGrow(other) && Holds(live, v, other)
    ensures Holds(ClassifyTypeChange(want, live, inKey).to, v, other)
  {
    hide Squeeze, NormalizeType, StripLowCardinality, SplitNullable, LowCardinalitySafe, BaseHolds, FloatsGrow, Widens;
    var to := ClassifyTypeChange(want, live, inKey).to;
    var w := NormalizeType(want);
    var stripped := StripLowCardinality(NormalizeType(live));
    var ((wBase, wNull), (lBase, lNull)) := (SplitNullable(w), SplitNullable(stripped));
    NormalizeTwice(want);
    NormalizeTwice(live);
    BaseIsNormal(w);
    BaseIsNormal(NormalizeType(live));
    BaseIsNormal(stripped);
    StripWrapped(want);
    SafeTargetIsPlain(want, live);
    assert StripLowCardinality(NormalizeType(to)) == w;
    if v != Null && wBase != lBase {
      WidensKeepsValues(lBase, wBase, v, other);
    }
  }
}
