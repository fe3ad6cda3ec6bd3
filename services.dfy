/** showDetails' service lookup: the first services row naming the record,
    and that row's flag columns with each flag read by `v == 1`. */
module Services {
  import opened Wrappers
  import opened JsText
  import opened Seqs
  import opened Csv

  /** The services column holding the institution name. */
  const NAME_COLUMN := "醫事機構名稱"

  /** The number of leading columns that are not service flags. */
  const LEADING_COLUMNS: nat := 4

  // ---------------------------------------------------------------
  // `v == 1` for a string v: ToNumber(v) is exactly one. The value is
  // computed exactly from the numeric literal.
  // ---------------------------------------------------------------

  /** A digit's value in bases up to 16; 16 for any other character. */
  function DigitValue(c: char): nat {
    if '0' <= c <= '9' then c as nat - '0' as nat
    else if 'a' <= c <= 'f' then c as nat - 'a' as nat + 10
    else if 'A' <= c <= 'F' then c as nat - 'A' as nat + 10
    else 16
  }

  predicate AllDigits(ds: string, radix: nat) {
    forall i :: 0 <= i < |ds| ==> DigitValue(ds[i]) < radix
  }

  /** The number the digits denote in the radix, most significant first. */
  function DigitsValue(ds: string, radix: nat): nat {
    if ds == [] then 0 else DigitsValue(ds[..|ds| - 1], radix) * radix + DigitValue(ds[|ds| - 1])
  }

  function Pow10(e: nat): nat {
    if e == 0 then 1 else 10 * Pow10(e - 1)
  }

  predicate IsDecimalDigit(c: char) {
    '0' <= c <= '9'
  }

  /** The length of the run of decimal digits at the start of `s`. */
  function DecimalRun(s: string): (n: nat)
    ensures n <= |s|
  {
    if s != [] && IsDecimalDigit(s[0]) then 1 + DecimalRun(s[1..]) else 0
  }

  /** The exponent an exponent part (`e`/`E`, optional sign, digits)
      denotes; 0 for no exponent part; None when the text is anything else. */
  function ExponentOf(s: string): Option<int> {
    if s == [] then Some(0)
    else if s[0] != 'e' && s[0] != 'E' then None
    else
      var signed := s[1..];
      var negative := signed != [] && signed[0] == '-';
      var ds := if signed != [] && (signed[0] == '-' || signed[0] == '+') then signed[1..] else signed;
      if ds == [] || DecimalRun(ds) != |ds| then None
      else if negative then Some(-(DigitsValue(ds, 10) as int))
      else Some(DigitsValue(ds, 10))
  }

  /** `m * 10^scale == 1`. */
  predicate ScaledIsOne(m: nat, scale: int) {
    if scale >= 0 then m * Pow10(scale) == 1 else m == Pow10(-scale)
  }

  /** The integer digits of an unsigned decimal literal. */
  function IntegerPart(u: string): string {
    u[..DecimalRun(u)]
  }

  function AfterInteger(u: string): string {
    u[DecimalRun(u)..]
  }

  /** The fraction digits after a `.`, if the integer digits are followed by one. */
  function FractionPart(u: string): string {
    var r := AfterInteger(u);
    if r != [] && r[0] == '.' then r[1..][..DecimalRun(r[1..])] else ""
  }

  /** What follows the digits and the `.`: an exponent part, or garbage. */
  function AfterFraction(u: string): string {
    var r := AfterInteger(u);
    if r != [] && r[0] == '.' then r[1 + DecimalRun(r[1..])..] else r
  }

  /** An unsigned decimal literal (integer digits, optional `.` and
      fraction digits, optional exponent; at least one digit) that denotes
      exactly one. "Infinity" and every other text are not one. */
  predicate UnsignedDecimalIsOne(u: string) {
    var e := ExponentOf(AfterFraction(u));
    && |IntegerPart(u)| + |FractionPart(u)| > 0
    && e.Some?
    && ScaledIsOne(DigitsValue(IntegerPart(u) + FractionPart(u), 10), e.value - |FractionPart(u)|)
  }

  /** The radix a `0x`/`0o`/`0b` prefix selects (either case); 0 if none. */
  function RadixOf(t: string): nat {
    if |t| < 2 || t[0] != '0' then 0
    else if t[1] == 'x' || t[1] == 'X' then 16
    else if t[1] == 'o' || t[1] == 'O' then 8
    else if t[1] == 'b' || t[1] == 'B' then 2
    else 0
  }

  /** ToNumber of already trimmed text is exactly one. A `-` sign gives a
      negative number, negative zero or NaN, none of which is one. */
  predicate NumberIsOne(t: string) {
    if RadixOf(t) != 0 then
      var ds := t[2..];
      ds != [] && AllDigits(ds, RadixOf(t)) && DigitsValue(ds, RadixOf(t)) == 1
    else if t != [] && t[0] == '+' then UnsignedDecimalIsOne(t[1..])
    else if t != [] && t[0] == '-' then false
    else UnsignedDecimalIsOne(t)
  }

  /** `v == 1` for a string `v`. */
  predicate LooselyEqualsOne(v: string) {
    NumberIsOne(Trim(v))
  }

  /** Surrounding whitespace never changes the comparison. */
  lemma LooselyEqualsOneIgnoresTrim(v: string)
    ensures LooselyEqualsOne(v) <==> LooselyEqualsOne(Trim(v))
  {
    TrimIdempotent(v);
  }

  /** A string of decimal digits is one run. */
  lemma {:induction false} DecimalRunAllDigits(ds: string)
    requires forall i :: 0 <= i < |ds| ==> IsDecimalDigit(ds[i])
    ensures DecimalRun(ds) == |ds|
  {
    if ds != [] {
      DecimalRunAllDigits(ds[1..]);
    }
  }

  /** Text that starts and ends with a non-whitespace character is its own trim. */
  lemma TrimmedAlready(t: string)
    requires t != [] && !IsWhitespace(t[0]) && !IsWhitespace(t[|t| - 1])
    ensures Trim(t) == t
  {
    assert TrimStart(t) == t;
  }

  /** A value that starts with a decimal digit and has no `0x`/`0o`/`0b`
      prefix is compared as an unsigned decimal literal, once trailing
      whitespace is trimmed. */
  lemma DigitFirstIsDecimal(t: string)
    requires t != [] && IsDecimalDigit(t[0]) && RadixOf(t) == 0
    ensures LooselyEqualsOne(t) <==> UnsignedDecimalIsOne(Trim(t))
  {
    assert TrimStart(t) == t;
    TrimEndSpec(t);
    var r := Trim(t);
    assert r != [] && r[0] == t[0];
    assert |r| >= 2 ==> r[1] == t[1];
    assert RadixOf(r) == 0;
  }

  /** Digits with no `.` or exponent denote one exactly when their value is one. */
  lemma UnsignedIntegerIsOne(ds: string)
    requires forall i :: 0 <= i < |ds| ==> IsDecimalDigit(ds[i])
    ensures UnsignedDecimalIsOne(ds) <==> ds != [] && DigitsValue(ds, 10) == 1
  {
    DecimalRunAllDigits(ds);
    assert IntegerPart(ds) == ds;
    assert AfterInteger(ds) == [];
    assert ds + "" == ds;
  }

  /** A plain run of decimal digits equals one exactly when its value is one,
      leading zeros included ("01" == 1). */
  lemma DecimalIntegerIsOne(ds: string)
    requires ds != [] && forall i :: 0 <= i < |ds| ==> IsDecimalDigit(ds[i])
    ensures LooselyEqualsOne(ds) <==> DigitsValue(ds, 10) == 1
  {
    DigitFirstIsDecimal(ds);
    TrimmedAlready(ds);
    UnsignedIntegerIsOne(ds);
  }

  /** Flags written "1", " 1 " and "01" are ✔. */
  lemma OneSpellings()
    ensures LooselyEqualsOne("1") && LooselyEqualsOne(" 1 ") && LooselyEqualsOne("01")
  {
    DecimalIntegerIsOne("1");
    assert DigitsValue("1", 10) == 1 by { assert "1"[..0] == ""; }
    assert Trim(" 1 ") == "1" by {
      assert TrimStart(" 1 ") == "1 ";
    }
    DecimalIntegerIsOne("01");
    assert DigitsValue("01", 10) == 1 by { assert "01"[..1] == "0"; assert "0"[..0] == ""; }
  }

  /** So are a signed "+1" and a hexadecimal "0x1". */
  lemma PrefixedOneSpellings()
    ensures LooselyEqualsOne("+1") && LooselyEqualsOne("0x1")
  {
    TrimmedAlready("+1");
    UnsignedIntegerIsOne("1");
    TrimmedAlready("0x1");
    assert "0x1"[2..] == "1";
  }

  /** A flag written "1.0" is ✔: the fraction digits count. */
  lemma DecimalFractionIsOne()
    ensures LooselyEqualsOne("1.0")
  {
    var t := "1.0";
    DigitFirstIsDecimal(t);
    TrimmedAlready(t);
    assert DecimalRun(t) == 1;
    assert IntegerPart(t) == "1" && AfterInteger(t) == ".0";
    assert ".0"[1..] == "0" && DecimalRun("0") == 1;
    assert FractionPart(t) == "0" && AfterFraction(t) == "";
    assert "1" + "0" == "10";
    assert DigitsValue("10", 10) == 10 by { assert "10"[..1] == "1"; assert "1"[..0] == ""; }
  }

  /** The exponent part "e-1" denotes minus one. */
  lemma ExponentMinusOne()
    ensures ExponentOf("e-1") == Some(-1)
  {
    assert "e-1"[1..] == "-1" && "-1"[1..] == "1";
    assert DigitsValue("1", 10) == 1 by { assert "1"[..0] == ""; }
  }

  /** "10e-1" splits into the integer digits "10", no fraction and the exponent part "e-1". */
  lemma TenExponentParts()
    ensures IntegerPart("10e-1") == "10" && FractionPart("10e-1") == "" && AfterFraction("10e-1") == "e-1"
  {
    var t := "10e-1";
    assert DecimalRun(t) == 2 by { assert t[1..][1..] == "e-1"; }
    assert AfterInteger(t) == "e-1";
  }

  /** A flag written "10e-1" is ✔: the exponent scales the digits. */
  lemma DecimalExponentIsOne()
    ensures LooselyEqualsOne("10e-1")
  {
    var t := "10e-1";
    DigitFirstIsDecimal(t);
    TrimmedAlready(t);
    TenExponentParts();
    ExponentMinusOne();
    assert "10" + "" == "10";
    assert DigitsValue("10", 10) == 10 by { assert "10"[..1] == "1"; assert "1"[..0] == ""; }
  }

  /** Flags written "", "0", "-1", "1a" or "是" are ✖. */
  lemma NotOneSpellings()
    ensures !LooselyEqualsOne("") && !LooselyEqualsOne("0") && !LooselyEqualsOne("-1")
    ensures !LooselyEqualsOne("1a") && !LooselyEqualsOne("是")
  {
    assert Trim("") == "";
    assert IntegerPart("") == "" && FractionPart("") == "";
    DecimalIntegerIsOne("0");
    assert DigitsValue("0", 10) == 0 by { assert "0"[..0] == ""; }
    TrimmedAlready("-1");
    TrimmedAlready("1a");
    var t := "1a";
    assert DecimalRun(t) == 1 && AfterInteger(t) == "a" && AfterFraction(t) == "a";
    TrimmedAlready("是");
    assert DecimalRun("是") == 0 && IntegerPart("是") == "" && FractionPart("是") == "";
  }

  // ---------------------------------------------------------------
  // The lookup
  // ---------------------------------------------------------------

  /** `s["醫事機構名稱"] && s["醫事機構名稱"].includes(name)`. */
  predicate ServesName(s: Row, name: string) {
    var v := Get(s, NAME_COLUMN);
    v.Some? && v.value != "" && Contains(v.value, name)
  }

  /** `serviceData.find(...)`. */
  function FindService(rows: seq<Row>, name: string): Option<Row> {
    if rows == [] then None
    else if ServesName(rows[0], name) then Some(rows[0])
    else FindService(rows[1..], name)
  }

  /** The lookup yields the first row whose name column contains the name,
      and nothing exactly when no row's does. */
  lemma {:induction false} FindServiceSpec(rows: seq<Row>, name: string)
    ensures FindService(rows, name).None? <==> forall i :: 0 <= i < |rows| ==> !ServesName(rows[i], name)
    ensures FindService(rows, name).Some? ==>
      exists i :: 0 <= i < |rows| && rows[i] == FindService(rows, name).value
        && ServesName(rows[i], name) && forall j :: 0 <= j < i ==> !ServesName(rows[j], name)
  {
    if rows != [] && !ServesName(rows[0], name) {
      FindServiceSpec(rows[1..], name);
      if FindService(rows, name).Some? {
        var i :| 0 <= i < |rows[1..]| && rows[1..][i] == FindService(rows, name).value
          && ServesName(rows[1..][i], name) && forall j :: 0 <= j < i ==> !ServesName(rows[1..][j], name);
        assert rows[i + 1] == rows[1..][i];
        forall j | 0 <= j < i + 1 ensures !ServesName(rows[j], name) {
          if j > 0 { assert rows[j] == rows[1..][j - 1]; }
        }
      } else {
        forall i | 0 <= i < |rows| ensures !ServesName(rows[i], name) {
          if i > 0 { assert rows[i] == rows[1..][i - 1]; }
        }
      }
    }
  }

  /** One line of the service table: a column name and whether it is ✔. */
  datatype ServiceItem = ServiceItem(column: string, provided: bool)

  /** `!k.trim()` skips the column. */
  predicate IsLabel(k: string) {
    Trim(k) != ""
  }

  /** `Object.keys(found).slice(4)` less the blank keys. */
  function ItemKeys(row: Row): seq<string> {
    Keep(Slice(Keys(row), LEADING_COLUMNS, |Keys(row)|), IsLabel)
  }

  function ValueOf(row: Row, k: string): string {
    Get(row, k).GetOr("")
  }

  /** The service table for a found row. */
  function ServiceItems(row: Row): seq<ServiceItem> {
    var ks := ItemKeys(row);
    seq(|ks|, i requires 0 <= i < |ks| => ServiceItem(ks[i], LooselyEqualsOne(ValueOf(row, ks[i]))))
  }

  /** The columns of a service table, in order. */
  function Columns(items: seq<ServiceItem>): (cs: seq<string>)
    ensures |cs| == |items| && forall i :: 0 <= i < |items| ==> cs[i] == items[i].column
  {
    seq(|items|, i requires 0 <= i < |items| => items[i].column)
  }

  /** Each line names a non-blank column and is ✔ exactly when that
      column's value loosely equals one. */
  lemma ServiceItemsFlags(row: Row)
    ensures var items := ServiceItems(row);
      forall i :: 0 <= i < |items| ==>
        IsLabel(items[i].column) && (items[i].provided <==> LooselyEqualsOne(ValueOf(row, items[i].column)))
  {
    KeepPasses(Slice(Keys(row), LEADING_COLUMNS, |Keys(row)|), IsLabel);
  }

  /** The columns are keys after the first four, in key order. */
  lemma ServiceItemsInKeyOrder(row: Row)
    ensures var items := ServiceItems(row); var ks := Keys(row);
      IsSubsequence(Columns(items), Slice(ks, LEADING_COLUMNS, |ks|))
  {
    var ks := Keys(row);
    assert Columns(ServiceItems(row)) == ItemKeys(row);
    KeepIsSubsequence(Slice(ks, LEADING_COLUMNS, |ks|), IsLabel);
  }

  /** Every non-blank key after the first four has a line. */
  lemma ServiceItemsComplete(row: Row, j: nat)
    requires LEADING_COLUMNS <= j < |Keys(row)| && IsLabel(Keys(row)[j])
    ensures Keys(row)[j] in Columns(ServiceItems(row))
  {
    var ks := Keys(row);
    var rest := Slice(ks, LEADING_COLUMNS, |ks|);
    assert rest == ks[LEADING_COLUMNS..];
    assert ks[j] == rest[j - LEADING_COLUMNS];
    KeepMembership(rest, IsLabel, ks[j]);
    assert Columns(ServiceItems(row)) == ItemKeys(row);
  }

  /** For a row of a parsed services file the items follow the header line:
      the distinct header names after the first four, less the blank ones. */
  lemma ServiceItemsFollowHeaders(csv: string, i: nat)
    requires ParseCsv(csv).Success? && i < |ParseCsv(csv).value|
    ensures var headers := Headers(NonBlankLines(csv)[0]); var row := ParseCsv(csv).value[i];
      ItemKeys(row) == Keep(Slice(Dedup(headers), LEADING_COLUMNS, |Dedup(headers)|), IsLabel)
  {
    ParsedRow(csv, i);
  }

  /** What showDetails shows for a record: the service table, or None for
      the 暫無服務資料 message. */
  function ServiceTable(rows: seq<Row>, name: string): Option<seq<ServiceItem>> {
    match FindService(rows, name)
    case Some(row) => Some(ServiceItems(row))
    case None => None
  }

  /** The message shows exactly when no services row names the record. */
  lemma ServiceTableSpec(rows: seq<Row>, name: string)
    ensures ServiceTable(rows, name).None? <==> forall i :: 0 <= i < |rows| ==> !ServesName(rows[i], name)
  {
    FindServiceSpec(rows, name);
  }
}
