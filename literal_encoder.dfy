// The literal encoder of the row copy (CopyRowsTask.From): one cell value
// fetched from SQL Server becomes the text of a PostgreSQL literal.

module LiteralEncoder {
  import opened Strings
  import opened Models

  /**
    * A DateTime as its calendar fields. A .NET DateTime counts in ticks of
    * 100 ns; SubMillisecondTicks holds the ticks below the millisecond.
    */
  datatype DateTime = DateTime(
    Year: nat, Month: nat, Day: nat,
    Hour: nat, Minute: nat, Second: nat, Millisecond: nat, SubMillisecondTicks: nat)

  /** The same instant cut down to the millisecond. */
  function ToMillisecond(dt: DateTime): DateTime
  {
    dt.(SubMillisecondTicks := 0)
  }

  /** The ranges a .NET DateTime keeps its fields in. */
  predicate ValidDateTime(dt: DateTime)
  {
    && 1 <= dt.Year <= 9999 && 1 <= dt.Month <= 12 && 1 <= dt.Day <= 31
    && dt.Hour < 24 && dt.Minute < 60 && dt.Second < 60 && dt.Millisecond < 1000
    && dt.SubMillisecondTicks < 10000
  }

  /**
    * A cell as the driver hands it over, tagged by its runtime type.
    * Single, Decimal and Double carry the text of their
    * ToString(CultureInfo.InvariantCulture); Int stands for the integral types;
    * Other carries the ToString() of any other object, which may be null.
    */
  datatype Value =
    | Null
    | Bool(b: bool)
    | DateTimeValue(dt: DateTime)
    | Single(text: string)
    | Decimal(text: string)
    | Double(text: string)
    | Int(i: int)
    | Text(s: string)
    | Other(display: Option<string>)

  predicate IsDigit(c: char)
  {
    '0' <= c <= '9'
  }

  predicate AllDigits(s: string)
  {
    forall i :: 0 <= i < |s| ==> IsDigit(s[i])
  }

  function DigitChar(d: nat): char
    requires d < 10
  {
    ('0' as int + d) as char
  }

  function Pow10(w: nat): nat
  {
    if w == 0 then 1 else 10 * Pow10(w - 1)
  }

  /** The last `width` decimal digits of `n`, zero-padded (the "yyyy", "MM", "fff" format parts). */
  function PadDigits(n: nat, width: nat): (r: string)
    ensures |r| == width && AllDigits(r)
    decreases width
  {
    if width == 0 then "" else PadDigits(n / 10, width - 1) + [DigitChar(n % 10)]
  }

  /** The number a string of decimal digits denotes. */
  function ParseDigits(s: string): nat
    requires AllDigits(s)
    decreases |s|
  {
    if |s| == 0 then 0 else 10 * ParseDigits(s[..|s| - 1]) + (s[|s| - 1] as int - '0' as int)
  }

  /** Padding to a width that holds the number loses nothing. */
  lemma {:induction false} ParsePadDigits(n: nat, width: nat)
    requires n < Pow10(width)
    ensures ParseDigits(PadDigits(n, width)) == n
    decreases width
  {
    if width > 0 {
      ParsePadDigits(n / 10, width - 1);
      var s := PadDigits(n, width);
      assert s[..|s| - 1] == PadDigits(n / 10, width - 1);
    }
  }

  /**
    * The layout "yyyy-MM-dd HH:mm:ss.fff" as digit groups and the separators
    * between them: year, month, day, hour, minute, second, millisecond.
    */
  const DateWidths: seq<nat> := [4, 2, 2, 2, 2, 2, 3]
  const DateSeparators: string := "-- ::."

  function DateFields(dt: DateTime): seq<nat>
  {
    [dt.Year, dt.Month, dt.Day, dt.Hour, dt.Minute, dt.Second, dt.Millisecond]
  }

  function Sum(ws: seq<nat>): nat
  {
    if |ws| == 0 then 0 else ws[0] + Sum(ws[1..])
  }

  /** Each number zero-padded to its width, with the separators between them. */
  function FormatFields(vs: seq<nat>, ws: seq<nat>, seps: string): (r: string)
    requires |vs| == |ws| == |seps| + 1
    ensures |r| == Sum(ws) + |seps|
    decreases |ws|
  {
    if |ws| == 1 then PadDigits(vs[0], ws[0])
    else PadDigits(vs[0], ws[0]) + [seps[0]] + FormatFields(vs[1..], ws[1..], seps[1..])
  }

  /** Reads digit groups of the given widths separated by the given characters; None on any mismatch. */
  function ReadFields(s: string, ws: seq<nat>, seps: string): (r: Option<seq<nat>>)
    requires |ws| == |seps| + 1
    ensures r.Some? ==> |r.value| == |ws|
    decreases |ws|
  {
    var w := ws[0];
    if |s| < w || !AllDigits(s[..w]) then None
    else if |ws| == 1 then (if |s| == w then Some([ParseDigits(s[..w])]) else None)
    else if |s| == w || s[w] != seps[0] then None
    else
      match ReadFields(s[w + 1..], ws[1..], seps[1..])
      case None => None
      case Some(rest) => Some([ParseDigits(s[..w])] + rest)
  }

  /** Reading the groups back gives the numbers, when each fits its width. */
  lemma {:induction false} ReadFormatFields(vs: seq<nat>, ws: seq<nat>, seps: string)
    requires |vs| == |ws| == |seps| + 1
    requires forall i :: 0 <= i < |vs| ==> vs[i] < Pow10(ws[i])
    ensures ReadFields(FormatFields(vs, ws, seps), ws, seps) == Some(vs)
    decreases |ws|
  {
    var p := PadDigits(vs[0], ws[0]);
    ParsePadDigits(vs[0], ws[0]);
    var s := FormatFields(vs, ws, seps);
    if |ws| == 1 {
      assert s[..ws[0]] == p;
      assert vs == [vs[0]];
    } else {
      var t := FormatFields(vs[1..], ws[1..], seps[1..]);
      assert forall i :: 0 <= i < |vs[1..]| ==> vs[1..][i] < Pow10(ws[1..][i]) by {
        forall i | 0 <= i < |vs[1..]| ensures vs[1..][i] < Pow10(ws[1..][i]) {
          assert vs[1..][i] == vs[i + 1] && ws[1..][i] == ws[i + 1];
        }
      }
      ReadFormatFields(vs[1..], ws[1..], seps[1..]);
      assert s == p + [seps[0]] + t;
      assert s[..ws[0]] == p;
      assert s[ws[0]] == seps[0];
      assert s[ws[0] + 1..] == t;
      assert [vs[0]] + vs[1..] == vs;
    }
  }

  /** DateTime.ToString("yyyy-MM-dd HH:mm:ss.fff", CultureInfo.InvariantCulture). */
  function FormatDateTime(dt: DateTime): string
  {
    FormatFields(DateFields(dt), DateWidths, DateSeparators)
  }

  /** Reads the "yyyy-MM-dd HH:mm:ss.fff" layout back into its fields. */
  function ParseDateTime(s: string): Option<DateTime>
  {
    match ReadFields(s, DateWidths, DateSeparators)
    case None => None
    case Some(v) => Some(DateTime(v[0], v[1], v[2], v[3], v[4], v[5], v[6], 0))
  }

  /**
    * The fixed date format is exactly 23 characters and reads back to the same
    * date and time to the millisecond: the ticks below it are cut off, not
    * rounded.
    */
  lemma FormatDateTimeRoundTrip(dt: DateTime)
    requires ValidDateTime(dt)
    ensures |FormatDateTime(dt)| == 23
    ensures ParseDateTime(FormatDateTime(dt)) == Some(ToMillisecond(dt))
  {
    var vs := DateFields(dt);
    assert Pow10(4) == 10000 && Pow10(3) == 1000 && Pow10(2) == 100;
    ReadFormatFields(vs, DateWidths, DateSeparators);
  }

  /** The decimal text of a natural number. */
  function NatToString(n: nat): (r: string)
    ensures r != "" && AllDigits(r)
    decreases n
  {
    if n < 10 then [DigitChar(n)] else NatToString(n / 10) + [DigitChar(n % 10)]
  }

  /** Int32/Int64.ToString() under a culture whose negative sign is "-": that sign for a negative value, then the decimal digits. */
  function IntToString(i: int): string
  {
    if i < 0 then "-" + NatToString(-i) else NatToString(i)
  }

  /** A single-quoted string literal with every embedded quote doubled. */
  function Quote(s: string): string
  {
    "'" + Replace(s, "'", "''") + "'"
  }

  /** CopyRowsTask.From: the PostgreSQL literal for one cell; the first matching type wins. */
  function From(v: Value): string
  {
    match v
    case Null => "null"
    case Bool(b) => if b then "true" else "false"
    case DateTimeValue(dt) => "'" + FormatDateTime(dt) + "'"
    case Single(t) => Replace(t, ",", ".")
    case Decimal(t) => Replace(t, ",", ".")
    case Double(t) => Replace(t, ",", ".")
    case Int(i) => Quote(IntToString(i))
    case Text(s) => Quote(s)
    case Other(d) => Quote(if d.Some? then d.value else "")
  }

  /** Reads the inside of a quoted literal: a doubled quote stands for one quote, a lone quote is malformed. */
  function Undouble(t: string): Option<string>
    decreases |t|
  {
    if |t| == 0 then Some("")
    else if t[0] == '\'' then
      if |t| >= 2 && t[1] == '\'' then
        match Undouble(t[2..])
        case None => None
        case Some(r) => Some("'" + r)
      else None
    else
      match Undouble(t[1..])
      case None => None
      case Some(r) => Some([t[0]] + r)
  }

  /** How PostgreSQL reads a standard string literal back into its text. */
  function DecodeStringLiteral(lit: string): Option<string>
  {
    if |lit| >= 2 && lit[0] == '\'' && lit[|lit| - 1] == '\'' then Undouble(lit[1..|lit| - 1]) else None
  }

  lemma {:induction false} UndoubleReplace(s: string)
    ensures Undouble(Replace(s, "'", "''")) == Some(s)
    decreases |s|
  {
    if |s| >= 1 {
      UndoubleReplace(s[1..]);
      var t := Replace(s, "'", "''");
      if s[..1] == "'" {
        assert s[0] == '\'';
        assert t == "''" + Replace(s[1..], "'", "''");
        assert t[2..] == Replace(s[1..], "'", "''");
        assert "'" + s[1..] == s;
      } else {
        assert s[0] != '\'';
        assert t == [s[0]] + Replace(s[1..], "'", "''");
        assert t[1..] == Replace(s[1..], "'", "''");
        assert [s[0]] + s[1..] == s;
      }
    }
  }

  /** Quoting is undone by the reader: a text with quotes in it arrives unchanged. */
  lemma QuoteRoundTrip(s: string)
    ensures DecodeStringLiteral(Quote(s)) == Some(s)
  {
    var q := Quote(s);
    assert q[1..|q| - 1] == Replace(s, "'", "''");
    UndoubleReplace(s);
  }

  /**
    * Null and the booleans are sent as the unquoted keywords null, true and
    * false, so PostgreSQL does not read them as string literals.
    */
  lemma FromNullAndBoolAreKeywords(b: bool)
    ensures From(Null) == "null" && DecodeStringLiteral(From(Null)) == None
    ensures From(Bool(b)) == (if b then "true" else "false") && DecodeStringLiteral(From(Bool(b))) == None
  {
  }

  /** Strings, integers and every unrecognised type become quoted literals that read back as their text. */
  lemma FromQuotesTheRest(v: Value)
    requires v.Text? || v.Int? || v.Other?
    ensures DecodeStringLiteral(From(v)) == Some(
      match v
      case Text(s) => s
      case Int(i) => IntToString(i)
      case Other(d) => if d.Some? then d.value else "")
  {
    match v
    case Text(s) => QuoteRoundTrip(s);
    case Int(i) => QuoteRoundTrip(IntToString(i));
    case Other(d) => QuoteRoundTrip(if d.Some? then d.value else "");
  }

  /** An integer is sent as its decimal text in quotes, with nothing escaped. */
  lemma FromIntIsQuotedDecimal(i: int)
    ensures From(Int(i)) == "'" + IntToString(i) + "'"
  {
    var t := IntToString(i);
    assert '\'' !in t by {
      var n := if i < 0 then -i else i;
      assert AllDigits(NatToString(n));
      if i < 0 {
        assert t == "-" + NatToString(n);
        assert forall k :: 1 <= k < |t| ==> t[k] == NatToString(n)[k - 1];
      }
    }
    ReplaceAbsentChar(t, '\'', "''");
  }

  /** Floating and fixed-point numbers never carry a decimal comma, and are otherwise sent verbatim, unquoted. */
  lemma FromFractionalHasNoComma(v: Value)
    requires v.Single? || v.Decimal? || v.Double?
    ensures ',' !in From(v)
    ensures ',' !in v.text ==> From(v) == v.text
  {
    ReplaceRemovesChar(v.text, ',', ".");
    if ',' !in v.text {
      ReplaceAbsentChar(v.text, ',', ".");
    }
  }

  /**
    * A DateTime becomes a 25-character quoted literal in the fixed format,
    * which reads back to the same instant cut down to the millisecond.
    */
  lemma FromDateTimeIsQuotedFixedFormat(dt: DateTime)
    requires ValidDateTime(dt)
    ensures |From(DateTimeValue(dt))| == 25
    ensures From(DateTimeValue(dt))[0] == '\'' && From(DateTimeValue(dt))[24] == '\''
    ensures ParseDateTime(From(DateTimeValue(dt))[1..24]) == Some(ToMillisecond(dt))
  {
    FormatDateTimeRoundTrip(dt);
    var lit := From(DateTimeValue(dt));
    assert lit[1..24] == FormatDateTime(dt);
  }

  /**
    * Two DateTimes that differ only below the millisecond (a datetime2 value
    * and the same value with its last four digits cleared) are sent as the
    * same literal.
    */
  lemma FromDateTimeTruncatesTicks(dt: DateTime, ticks: nat)
    requires ValidDateTime(dt) && ticks < 10000
    ensures From(DateTimeValue(dt.(SubMillisecondTicks := ticks))) == From(DateTimeValue(dt))
    ensures dt.SubMillisecondTicks != ticks ==> dt.(SubMillisecondTicks := ticks) != dt
  {
    assert DateFields(dt.(SubMillisecondTicks := ticks)) == DateFields(dt);
  }
}
