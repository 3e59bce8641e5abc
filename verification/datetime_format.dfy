/** The add-task screen's rendering of a picked date and time,
    `String.format("%02d/%02d/%d %02d:%02d", day, monthOfYear + 1, year, hour, minute)`,
    over natural-number picker outputs, together with a decoder that
    recovers the fields and so shows the rendering loses nothing. */
module DateTimeFormat {
  import opened Wrappers

  predicate IsDigit(c: char) {
    '0' <= c <= '9'
  }

  predicate AllDigits(s: string) {
    forall i :: 0 <= i < |s| ==> IsDigit(s[i])
  }

  function DigitChar(d: nat): (c: char)
    requires d < 10
    ensures IsDigit(c) && DigitValue(c) == d
  {
    (('0' as int) + d) as char
  }

  function DigitValue(c: char): nat
    requires IsDigit(c)
  {
    (c as int) - ('0' as int)
  }

  /** `%d` of a non-negative integer: its decimal digits, no padding. */
  function Decimal(n: nat): (r: string)
    ensures |r| >= 1 && AllDigits(r)
    decreases n
  {
    if n < 10 then [DigitChar(n)] else Decimal(n / 10) + [DigitChar(n % 10)]
  }

  /** Reads a digit string as a decimal number (leading zeros allowed). */
  function ParseDecimal(s: string): nat
    requires AllDigits(s)
  {
    if s == [] then 0 else ParseDecimal(s[..|s| - 1]) * 10 + DigitValue(s[|s| - 1])
  }

  /** Reading back `%d` gives the number that was rendered. */
  lemma {:induction false} DecimalRoundTrip(n: nat)
    ensures ParseDecimal(Decimal(n)) == n
    decreases n
  {
    var r := Decimal(n);
    if n < 10 {
      assert r[..|r| - 1] == [];
    } else {
      DecimalRoundTrip(n / 10);
      assert r[..|r| - 1] == Decimal(n / 10);
    }
  }

  /** `%d` has exactly one digit below 10, two below 100 and four for a
      four-digit year. */
  lemma DecimalLength(n: nat)
    ensures n < 10 <==> |Decimal(n)| == 1
    ensures 10 <= n < 100 ==> |Decimal(n)| == 2
    ensures 1000 <= n < 10000 ==> |Decimal(n)| == 4
  {
    if 1000 <= n < 10000 {
      assert |Decimal(n / 1000)| == 1;
      assert |Decimal(n / 100)| == 2;
      assert |Decimal(n / 10)| == 3;
    }
  }

  /** `%02d` of a non-negative integer: at least two characters, a leading
      zero added only to a single digit, the value unchanged. */
  function Pad2(n: nat): (r: string)
    ensures AllDigits(r)
    ensures |r| == if n < 10 then 2 else |Decimal(n)|
    ensures n < 100 ==> |r| == 2
    ensures ParseDecimal(r) == n
  {
    DecimalLength(n);
    DecimalRoundTrip(n);
    if n < 10 then
      var r := ['0'] + Decimal(n);
      assert r[..|r| - 1] == ['0'];
      assert ParseDecimal(['0']) == 0 by {
        assert ['0'][..0] == [];
      }
      r
    else
      Decimal(n)
  }

  /** The five rendered numbers, the month already shifted to 1..12. */
  datatype Fields = Fields(day: nat, month: nat, year: nat, hour: nat, minute: nat)

  /** The ranges the Android date and time pickers deliver. */
  predicate InPickerRange(dayOfMonth: nat, monthOfYear: nat, hourOfDay: nat, minute: nat) {
    1 <= dayOfMonth <= 31 && monthOfYear <= 11 && hourOfDay <= 23 && minute <= 59
  }

  /** The `"%02d/%02d/%d %02d:%02d"` rendering of the fields. */
  function Render(f: Fields): string {
    Pad2(f.day) + "/" + Pad2(f.month) + "/" + Decimal(f.year) + " " + Pad2(f.hour) + ":" + Pad2(f.minute)
  }

  /** Splits `s` at the first occurrence of `sep`. */
  function Cut(s: string, sep: char): Option<(string, string)> {
    if s == [] then None
    else if s[0] == sep then Some(([], s[1..]))
    else match Cut(s[1..], sep)
      case None => None
      case Some(parts) => Some(([s[0]] + parts.0, parts.1))
  }

  /** A digit field cut off before a non-digit separator comes back whole. */
  lemma {:induction false} CutAfterDigits(a: string, sep: char, b: string)
    requires AllDigits(a) && !IsDigit(sep)
    ensures Cut(a + [sep] + b, sep) == Some((a, b))
    decreases |a|
  {
    var s := a + [sep] + b;
    if a == [] {
      assert s[1..] == b;
    } else {
      assert s[0] == a[0];
      assert s[1..] == a[1..] + [sep] + b;
      CutAfterDigits(a[1..], sep, b);
      assert [a[0]] + a[1..] == a;
    }
  }

  function Field(s: string): Option<nat> {
    if s != [] && AllDigits(s) then Some(ParseDecimal(s)) else None
  }

  /** Reference decoder for `DD/MM/YYYY HH:MM` text; the app itself never
      parses the string back. */
  function Parse(s: string): Option<Fields> {
    match Cut(s, '/')
    case None => None
    case Some(p1) =>
      match Cut(p1.1, '/')
      case None => None
      case Some(p2) =>
        match Cut(p2.1, ' ')
        case None => None
        case Some(p3) =>
          match Cut(p3.1, ':')
          case None => None
          case Some(p4) =>
            match (Field(p1.0), Field(p2.0), Field(p3.0), Field(p4.0), Field(p4.1))
            case (Some(d), Some(mo), Some(y), Some(h), Some(mi)) => Some(Fields(d, mo, y, h, mi))
            case _ => None
  }

  /** Every rendering decodes to the fields it was made from. */
  lemma RenderRoundTrip(f: Fields)
    ensures Parse(Render(f)) == Some(f)
  {
    var d, mo, y, h, mi := Pad2(f.day), Pad2(f.month), Decimal(f.year), Pad2(f.hour), Pad2(f.minute);
    DecimalRoundTrip(f.year);
    var r3 := h + ":" + mi;
    var r2 := y + " " + r3;
    var r1 := mo + "/" + r2;
    assert Render(f) == d + "/" + r1;
    CutAfterDigits(d, '/', r1);
    CutAfterDigits(mo, '/', r2);
    CutAfterDigits(y, ' ', r3);
    CutAfterDigits(h, ':', mi);
  }

  /** The time-picker callback's rendering of
      `(dayOfMonth, monthOfYear + 1, year, hourOfDay, minute)`. */
  function Format(dayOfMonth: nat, monthOfYear: nat, year: nat, hourOfDay: nat, minute: nat): (r: string)
    ensures r != []
    ensures Parse(r) == Some(Fields(dayOfMonth, monthOfYear + 1, year, hourOfDay, minute))
    ensures InPickerRange(dayOfMonth, monthOfYear, hourOfDay, minute) && 1000 <= year <= 9999 ==>
      && |r| == 16
      && r[2] == '/' && r[5] == '/' && r[10] == ' ' && r[13] == ':'
      && (forall i :: 0 <= i < 16 && i != 2 && i != 5 && i != 10 && i != 13 ==> IsDigit(r[i]))
  {
    var f := Fields(dayOfMonth, monthOfYear + 1, year, hourOfDay, minute);
    RenderRoundTrip(f);
    DecimalLength(year);
    Render(f)
  }

  lemma Example2024()
    ensures Decimal(2024) == "2024"
  {
    assert Decimal(2) == "2";
    assert Decimal(20) == "20";
    assert Decimal(202) == "202";
  }

  lemma ExamplePads()
    ensures Pad2(25) == "25" && Pad2(12) == "12" && Pad2(9) == "09" && Pad2(0) == "00"
  {
    assert Decimal(2) == "2";
    assert Decimal(1) == "1";
    assert Pad2(12) == "12" by { assert Decimal(12) == "12"; }
    assert Pad2(25) == "25" by { assert Decimal(25) == "25"; }
    assert Pad2(9) == "09";
    assert Pad2(0) == "00";
  }

  /** Christmas 2024 at nine in the morning (the picker's month index 11 is
      December). */
  lemma FormatExample()
    ensures Format(25, 11, 2024, 9, 0) == "25/12/2024 09:00"
  {
    RenderExample();
  }

  lemma RenderExample()
    ensures Render(Fields(25, 12, 2024, 9, 0)) == "25/12/2024 09:00"
  {
    Example2024();
    ExamplePads();
    assert Render(Fields(25, 12, 2024, 9, 0)) == "25" + "/" + "12" + "/" + "2024" + " " + "09" + ":" + "00";
  }
}
