/** Column types on both sides of a mirror, and which values of the one the other can hold. */
module MirrorTypes {
  import opened Wrappers
  import opened Strings
  import opened Numerals
  import opened MirrorClickHouse
  import TypeChange

  /** The column types the Postgres schema builder has. */
  datatype PgType =
    | SmallInt | SmallSerial | Integer | Serial | BigInt | BigSerial | Real | DoublePrecision
    | Numeric(precision: nat, scale: int) | AnyNumeric | Boolean | Text | Varchar(length: nat) | AnyVarchar
    | Char(length: nat) | Uuid | Date | Time | Timestamp | Timestamptz | Interval | Json | Jsonb | Bytea

  datatype ChType =
    IntOf(bits: nat) | FloatOf(bits: nat) | Bool | UUID | Date32 | DateTime64 | DateTime64UTC
    | DecimalOf(p: nat, s: int) | String

  /** How the builder spells a type. */
  function PgText(t: PgType): string {
    match t
    case SmallInt => "smallint"
    case SmallSerial => "smallserial"
    case Integer => "integer"
    case Serial => "serial"
    case BigInt => "bigint"
    case BigSerial => "bigserial"
    case Real => "real"
    case DoublePrecision => "double precision"
    case Numeric(p, s) => "numeric" + "(" + (Formatted(p) + "," + Formatted(s)) + ")"
    case AnyNumeric => "numeric"
    case Boolean => "boolean"
    case Text => "text"
    case Varchar(n) => "varchar" + "(" + Formatted(n) + ")"
    case AnyVarchar => "varchar"
    case Char(n) => "char" + "(" + Formatted(n) + ")"
    case Uuid => "uuid"
    case Date => "date"
    case Time => "time"
    case Timestamp => "timestamp"
    case Timestamptz => "timestamptz"
    case Interval => "interval"
    case Json => "json"
    case Jsonb => "jsonb"
    case Bytea => "bytea"
  }

  function ChText(c: ChType): string {
    match c
    case IntOf(bits) => "Int" + Formatted(bits)
    case FloatOf(bits) => "Float" + Formatted(bits)
    case Bool => "Bool"
    case UUID => "UUID"
    case Date32 => "Date32"
    case DateTime64 => "DateTime64(6)"
    case DateTime64UTC => "DateTime64(6, 'UTC')"
    case DecimalOf(p, s) => "Decimal(" + (Formatted(p) + "," + Formatted(s)) + ")"
    case String => "String"
  }

  /** The type a mirrored column has; a smallserial has none. */
  function MirrorOf(t: PgType): Option<ChType> {
    match t
    case SmallInt => Some(IntOf(16))
    case SmallSerial => None
    case Integer | Serial => Some(IntOf(32))
    case BigInt | BigSerial => Some(IntOf(64))
    case Real => Some(FloatOf(32))
    case DoublePrecision => Some(FloatOf(64))
    case Numeric(p, s) => Some(DecimalOf(p, s))
    case Boolean => Some(Bool)
    case Uuid => Some(UUID)
    case Date => Some(Date32)
    case Timestamp => Some(DateTime64)
    case Timestamptz => Some(DateTime64UTC)
    case AnyNumeric | Text | Varchar(_) | AnyVarchar | Char(_) | Time | Interval | Json | Jsonb | Bytea => Some(String)
  }

  // --------------------------------------------------------------------- reading the text

  predicate Tidy(s: string) {
    s != "" && !IsSpace(s[0]) && !IsSpace(s[|s| - 1])
  }

  lemma SplitPlain(base: string)
    requires Tidy(base) && forall i :: 0 <= i < |base| ==> base[i] != '('
    ensures SplitType(base) == (base, "")
  {
    NoParen(base);
    hide IndexOf, IsSpace;
  }

  lemma {:induction false} NoParen(s: string)
    requires forall i :: 0 <= i < |s| ==> s[i] != '('
    ensures IndexOf(s, '(') == -1
  {
    if s != "" {
      NoParen(s[1..]);
    }
  }

  lemma {:induction false} FirstParen(a: string, b: string)
    requires forall i :: 0 <= i < |a| ==> a[i] != '('
    ensures IndexOf(a + "(" + b, '(') == |a|
  {
    var s := a + "(" + b;
    if a == "" {
      assert s[0] == '(';
    } else {
      assert s[1..] == a[1..] + "(" + b;
      FirstParen(a[1..], b);
    }
  }

  lemma SplitWith(base: string, args: string)
    requires Tidy(base) && forall i :: 0 <= i < |base| ==> base[i] != '('
    ensures SplitType(base + "(" + args + ")") == (base, args)
  {
    var s := base + "(" + args + ")";
    assert s == base + "(" + (args + ")") && s[0] == base[0] && s[|s| - 1] == ')';
    FirstParen(base, args + ")");
    assert s[|base| + 1..] == args + ")" && s[..|base|] == base && (args + ")")[..|args|] == args;
    hide IndexOf;
  }

  lemma OuterTrim(left: string, t: string)
    requires Tidy(t) && forall i :: 0 <= i < |left| ==> left[i] == ' '
    ensures TrimSpace(left + t) == t
  {
    TrimsLeft(left, t);
    TrimsRight(t, "");
    hide TrimLeft, TrimRight, IsSpace;
    assert t + "" == t;
  }

  lemma InnerTrim(base: string, gap: string)
    requires Tidy(base) && forall i :: 0 <= i < |gap| ==> gap[i] == ' '
    ensures TrimSpace(base + gap) == base
  {
    TrimsLeft("", base + gap);
    TrimsRight(base, gap);
    hide TrimLeft, TrimRight, IsSpace;
    assert "" + (base + gap) == base + gap;
  }

  lemma PartsOf(base: string, gap: string, args: string)
    requires Tidy(base) && forall i :: 0 <= i < |base| ==> base[i] != '('
    requires forall i :: 0 <= i < |gap| ==> gap[i] == ' '
    ensures var t := base + gap + "(" + args + ")";
      && Tidy(t) && IndexOf(t, '(') == |base + gap|
      && t[..|base + gap|] == base + gap && t[|base + gap| + 1..] == args + ")"
  {
    var t := base + gap + "(" + args + ")";
    assert t == (base + gap) + "(" + (args + ")") && t[0] == base[0] && t[|t| - 1] == ')';
    FirstParen(base + gap, args + ")");
  }

  /** Blanks in front of a type, and between its name and its parameters, are not part of it. */
  lemma SplitIgnoresBlanks(left: string, base: string, gap: string, args: string)
    requires Tidy(base) && forall i :: 0 <= i < |base| ==> base[i] != '('
    requires (forall i :: 0 <= i < |left| ==> left[i] == ' ') && (forall i :: 0 <= i < |gap| ==> gap[i] == ' ')
    ensures SplitType(left + (base + gap + "(" + args + ")")) == (base, args)
  {
    hide *;
    var t := base + gap + "(" + args + ")";
    PartsOf(base, gap, args);
    OuterTrim(left, t);
    InnerTrim(base, gap);
    SplitOf(left + t, t, base + gap, base, args);
  }

  lemma SplitOf(s: string, t: string, front: string, base: string, args: string)
    requires TrimSpace(s) == t && TrimSpace(front) == base && IndexOf(t, '(') == |front|
    requires t[..|front|] == front && t[|front| + 1..] == args + ")"
    ensures SplitType(s) == (base, args)
  {
    hide TrimSpace, IndexOf;
    assert (args + ")")[..|args|] == args;
  }

  lemma {:induction false} TrimsLeft(left: string, t: string)
    requires t != "" && !IsSpace(t[0]) && forall i :: 0 <= i < |left| ==> left[i] == ' '
    ensures TrimLeft(left + t, IsSpace) == t
  {
    if left == "" {
      assert left + t == t;
    } else {
      assert (left + t)[1..] == left[1..] + t;
      TrimsLeft(left[1..], t);
    }
  }

  lemma {:induction false} TrimsRight(t: string, right: string)
    requires t != "" && !IsSpace(t[|t| - 1]) && forall i :: 0 <= i < |right| ==> right[i] == ' '
    ensures TrimRight(t + right, IsSpace) == t
  {
    if right == "" {
      assert t + right == t;
    } else {
      assert (t + right)[..|t + right| - 1] == t + right[..|right| - 1];
      TrimsRight(t, right[..|right| - 1]);
    }
  }

  function MirrorText(t: PgType): Option<string> {
    match MirrorOf(t)
    case None => None
    case Some(c) => Some(ChText(c))
  }

  lemma NumbersMap(t: PgType)
    requires t in {SmallInt, SmallSerial, Integer, Serial, BigInt, BigSerial, Real, DoublePrecision}
    ensures BaseType(PgText(t), "") == MirrorText(t)
  {
    BitsAreWritten();
    hide Formatted;
  }

  lemma TimesMap(t: PgType)
    requires t in {Date, Time, Timestamp, Timestamptz, Interval, Boolean, Uuid}
    ensures BaseType(PgText(t), "") == MirrorText(t)
  {
  }

  lemma TextsMap(t: PgType)
    requires t in {AnyNumeric, Text, AnyVarchar, Json, Jsonb, Bytea}
    ensures BaseType(PgText(t), "") == MirrorText(t)
  {
  }

  lemma SizedMap(args: string)
    requires args != ""
    ensures BaseType("numeric", args) == Some("Decimal(" + args + ")")
    ensures BaseType("varchar", args) == Some("String") && BaseType("char", args) == Some("String")
  {
  }

  /** Every type the builder has is mapped to the one that mirrors it, and refused where there is none. */
  lemma MapTypeExact(t: PgType, nullable: bool)
    ensures MapType(PgText(t), nullable) ==
      match MirrorOf(t)
      case None => None
      case Some(c) => Some(if nullable then "Nullable(" + ChText(c) + ")" else ChText(c))
  {
    hide SplitType, Formatted, BaseType;
    match t
    case Numeric(p, s) =>
      SplitsWith("numeric", Formatted(p) + "," + Formatted(s));
      SizedMap(Formatted(p) + "," + Formatted(s));
    case Varchar(n) =>
      FormattedIsSome(n);
      SplitsWith("varchar", Formatted(n));
      SizedMap(Formatted(n));
    case Char(n) =>
      FormattedIsSome(n);
      SplitsWith("char", Formatted(n));
      SizedMap(Formatted(n));
    case _ =>
      SplitsPlain(t);
      PlainMaps(t);
  }

  lemma PlainMaps(t: PgType)
    requires !t.Numeric? && !t.Varchar? && !t.Char?
    ensures BaseType(PgText(t), "") == MirrorText(t)
  {
    hide BaseType, PgText, MirrorText;
    match t
    case SmallInt | SmallSerial | Integer | Serial | BigInt | BigSerial | Real | DoublePrecision => NumbersMap(t);
    case Date | Time | Timestamp | Timestamptz | Interval | Boolean | Uuid => TimesMap(t);
    case _ => TextsMap(t);
  }

  lemma FormattedIsSome(n: nat)
    ensures Formatted(n) != ""
  {
  }

  lemma BitsAreWritten()
    ensures Formatted(16) == "16" && Formatted(32) == "32" && Formatted(64) == "64"
    ensures "Int" + "16" == "Int16" && "Int" + "32" == "Int32" && "Int" + "64" == "Int64"
    ensures "Float" + "32" == "Float32" && "Float" + "64" == "Float64"
  {
  }

  lemma SplitsWith(base: string, args: string)
    requires base in {"numeric", "varchar", "char"}
    ensures SplitType(base + "(" + args + ")") == (base, args)
  {
    assert base == "numeric" || base == "varchar" || base == "char";
    SplitWith(base, args);
  }

  lemma SplitsPlain(t: PgType)
    requires !t.Numeric? && !t.Varchar? && !t.Char?
    ensures SplitType(PgText(t)) == (PgText(t), "")
  {
    hide SplitType;
    SplitPlain(PgText(t));
  }

  // --------------------------------------------------------------------------- the values

  /**
    What a column can hold: a float by how many bits it takes to write, a date by its day since the
    epoch, an instant by its microsecond; Postgres has numerics that are not a number, and dates and
    instants that are at no time at all.
   */
  datatype Value =
    | Missing | Whole(n: int) | Fixed(unscaled: int, scale: int) | NotANumber | Floating(bits: nat, pattern: int)
    | Truth(b: bool) | Identity(id: nat) | Day(day: int) | Instant(micros: int) | Endless | Characters(text: string)

  ghost predicate PgHolds(t: PgType, nullable: bool, v: Value) {
    if v == Missing then nullable
    else
      match t
      case SmallInt | SmallSerial => v.Whole? && -0x8000 <= v.n < 0x8000
      case Integer | Serial => v.Whole? && -0x8000_0000 <= v.n < 0x8000_0000
      case BigInt | BigSerial => v.Whole? && -0x8000_0000_0000_0000 <= v.n < 0x8000_0000_0000_0000
      case Real => v.Floating? && v.bits <= 32
      case DoublePrecision => v.Floating? && v.bits <= 64
      case Numeric(p, s) =>
        v == NotANumber || (v.Fixed? && v.scale == s && 0 - TypeChange.Pow(10, p) < v.unscaled < TypeChange.Pow(10, p))
      case Boolean => v.Truth?
      case Uuid => v.Identity?
      case Date => v.Day? || v == Endless
      case Timestamp | Timestamptz => v.Instant? || v == Endless
      case AnyNumeric | Text | Varchar(_) | AnyVarchar | Char(_) | Time | Interval | Json | Jsonb | Bytea =>
        v.Characters?
  }

  /** 1900-01-01 and 2299-12-31, the first and last day a Date32 and a DateTime64 reach. */
  const FIRST_DAY: int := -25567
  const LAST_DAY: int := 120529
  const DAY_MICROS: int := 86_400_000_000

  /** The widest Decimal there is. */
  const MAX_PRECISION: nat := 76

  ghost predicate ChHolds(c: ChType, nullable: bool, v: Value) {
    if v == Missing then nullable
    else
      match c
      case IntOf(bits) => bits > 0 && v.Whole? && 0 - TypeChange.Pow(2, bits - 1) <= v.n < TypeChange.Pow(2, bits - 1)
      case FloatOf(bits) => v.Floating? && v.bits <= bits
      case Bool => v.Truth?
      case UUID => v.Identity?
      case Date32 => v.Day? && FIRST_DAY <= v.day <= LAST_DAY
      case DateTime64 | DateTime64UTC =>
        v.Instant? && FIRST_DAY * DAY_MICROS <= v.micros < (LAST_DAY + 1) * DAY_MICROS
      case DecimalOf(p, s) =>
        && 1 <= p <= MAX_PRECISION && 0 <= s <= p
        && v.Fixed? && v.scale == s && 0 - TypeChange.Pow(10, p) < v.unscaled < TypeChange.Pow(10, p)
      case String => v.Characters?
  }

  /** The dates, instants and numerics that a mirrored column has no value for. */
  ghost predicate Carries(t: PgType, v: Value) {
    match t
    case Date => v != Endless && (v.Day? ==> FIRST_DAY <= v.day <= LAST_DAY)
    case Timestamp | Timestamptz =>
      v != Endless && (v.Instant? ==> FIRST_DAY * DAY_MICROS <= v.micros < (LAST_DAY + 1) * DAY_MICROS)
    case Numeric(p, s) => v == Missing || (v != NotANumber && 1 <= p <= MAX_PRECISION && 0 <= s <= p)
    case _ => true
  }

  lemma Widths()
    ensures TypeChange.Pow(2, 15) == 0x8000 && TypeChange.Pow(2, 31) == 0x8000_0000
    ensures TypeChange.Pow(2, 63) == 0x8000_0000_0000_0000
  {
    PowPlus(2, 8, 7);
    PowPlus(2, 16, 15);
    PowPlus(2, 32, 31);
    PowPlus(2, 8, 8);
    PowPlus(2, 16, 16);
    assert TypeChange.Pow(2, 7) == 128 && TypeChange.Pow(2, 8) == 256;
  }

  lemma {:induction false} PowPlus(b: nat, d: nat, e: nat)
    ensures TypeChange.Pow(b, d + e) == TypeChange.Pow(b, d) * TypeChange.Pow(b, e)
  {
    if d > 0 {
      PowPlus(b, d - 1, e);
      var (x, y) := (TypeChange.Pow(b, d - 1), TypeChange.Pow(b, e));
      assert TypeChange.Pow(b, d) == b * x && TypeChange.Pow(b, d + e) == b * TypeChange.Pow(b, d - 1 + e);
      hide TypeChange.Pow;
      Associates(b, x, y);
    }
  }

  lemma Associates(b: nat, x: nat, y: nat)
    ensures b * (x * y) == b * x * y
  {
  }

  /**
    A mirrored column holds every value of its source column, NULL where that is nullable, except
    for dates and instants outside the years 1900 to 2299 and numerics that are not a number or
    wider than any Decimal.
   */
  lemma MirrorHoldsIff(t: PgType, nullable: bool, v: Value)
    requires MirrorOf(t).Some? && PgHolds(t, nullable, v)
    ensures ChHolds(MirrorOf(t).value, nullable, v) <==> Carries(t, v)
  {
    Widths();
    hide TypeChange.Pow;
  }

  /** The first of a century that Date32 does not reach. */
  lemma EarlyDateIsLost()
    ensures MirrorOf(Date) == Some(Date32) && PgHolds(Date, false, Day(FIRST_DAY - 1))
    ensures !ChHolds(Date32, false, Day(FIRST_DAY - 1))
  {
  }

  /** A derived key column takes keys as numbers exactly when its source column is of an integer type. */
  lemma DerivedKeyIsInteger(t: PgType, name: string)
    requires MirrorOf(t).Some?
    ensures MapType(PgText(t), false) == Some(ChText(MirrorOf(t).value))
    ensures IsInteger(Col(VERSION_COLUMN, "UInt64")) && IsInteger(Col(DELETED_COLUMN, "UInt8"))
    ensures IsInteger(Col(name, ChText(MirrorOf(t).value))) <==> t in {SmallInt, Integer, Serial, BigInt, BigSerial}
  {
    MapTypeExact(t, false);
    hide MapType, Formatted;
    var c := MirrorOf(t).value;
    assert "Int"[0] == 'I' && "UInt"[0] == 'U' && "UInt"[1] == 'I';
    if c.IntOf? {
      assert ChText(c)[..3] == "Int";
    } else {
      assert ChText(c)[0] != 'I' && (ChText(c)[0] == 'U' ==> ChText(c)[1] != 'I');
    }
  }
}
