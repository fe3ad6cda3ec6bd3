/** csvToJson: the first non-blank line names the columns, every later
    non-blank line becomes one row object keyed by those names. There is no
    quoting: a comma always separates columns. */
module Csv {
  import opened Wrappers
  import opened JsText
  import opened Seqs

  /** One property of a row object. */
  datatype Field = Field(key: string, value: string)

  /** A row object: its properties in insertion order. */
  type Row = seq<Field>

  /** Reading `lines[0].split` when there is no non-blank line throws. */
  datatype CsvError = NoHeaderLine

  /** Object.keys, in insertion order. */
  function Keys(o: Row): (ks: seq<string>)
    ensures |ks| == |o| && forall i :: 0 <= i < |o| ==> ks[i] == o[i].key
  {
    if o == [] then [] else [o[0].key] + Keys(o[1..])
  }

  ghost predicate DistinctKeys(o: Row) {
    Distinct(Keys(o))
  }

  /** `o[k]`, with None for undefined. */
  function Get(o: Row, k: string): Option<string> {
    if o == [] then None
    else if o[0].key == k then Some(o[0].value)
    else Get(o[1..], k)
  }

  /** Reading a key gives the value of its first property, and undefined
      exactly when no property has that key. */
  lemma {:induction false} GetSpec(o: Row, k: string)
    ensures Get(o, k).None? <==> forall i :: 0 <= i < |o| ==> o[i].key != k
    ensures Get(o, k).Some? ==>
      exists i :: 0 <= i < |o| && o[i] == Field(k, Get(o, k).value) && forall i' :: 0 <= i' < i ==> o[i'].key != k
  {
    if o != [] && o[0].key != k {
      GetSpec(o[1..], k);
      if Get(o, k).Some? {
        var i :| 0 <= i < |o[1..]| && o[1..][i] == Field(k, Get(o, k).value)
          && forall i' :: 0 <= i' < i ==> o[1..][i'].key != k;
        assert o[i + 1] == o[1..][i];
        forall i' | 0 <= i' < i + 1 ensures o[i'].key != k {
          if i' > 0 { assert o[i'] == o[1..][i' - 1]; }
        }
      } else {
        forall i | 0 <= i < |o| ensures o[i].key != k {
          if i > 0 { assert o[i] == o[1..][i - 1]; }
        }
      }
    }
  }

  /** `o[k] = v`: an existing property keeps its place and takes the new
      value; a new property goes last. */
  function Put(o: Row, k: string, v: string): (r: Row)
    ensures |r| == if k in Keys(o) then |o| else |o| + 1
  {
    if o == [] then [Field(k, v)]
    else if o[0].key == k then [Field(k, v)] + o[1..]
    else [o[0]] + Put(o[1..], k, v)
  }

  /** Assigning a property adds its key at the end only when it is new. */
  lemma {:induction false} PutKeys(o: Row, k: string, v: string)
    ensures Keys(Put(o, k, v)) == if k in Keys(o) then Keys(o) else Keys(o) + [k]
  {
    if o != [] && o[0].key != k {
      PutKeys(o[1..], k, v);
      var r := Put(o, k, v);
      assert r[1..] == Put(o[1..], k, v);
    }
  }

  /** After `o[k] = v`, reading `k` gives `v` and every other key reads as before. */
  lemma {:induction false} PutGet(o: Row, k: string, v: string, k': string)
    ensures Get(Put(o, k, v), k') == if k' == k then Some(v) else Get(o, k')
  {
    if o != [] && o[0].key != k {
      PutGet(o[1..], k, v, k');
    }
  }

  /** Every property after `o[k] = v` holds `v` or was already there. */
  lemma {:induction false} PutFields(o: Row, k: string, v: string)
    ensures forall i :: 0 <= i < |Put(o, k, v)| ==> Put(o, k, v)[i] == Field(k, v) || Put(o, k, v)[i] in o
  {
    if o != [] && o[0].key != k {
      PutFields(o[1..], k, v);
    }
  }

  /** `vals[i] ? vals[i].trim() : ""`: a missing or empty column is "". */
  function Cell(vals: seq<string>, i: nat): string {
    if i < |vals| && vals[i] != "" then Trim(vals[i]) else ""
  }

  /** The row object after the first `n` headers have been assigned. */
  function RowPrefix(headers: seq<string>, vals: seq<string>, n: nat): Row
    requires n <= |headers|
  {
    if n == 0 then []
    else Put(RowPrefix(headers, vals, n - 1), headers[n - 1], Cell(vals, n - 1))
  }

  lemma RowPrefixNext(headers: seq<string>, vals: seq<string>, i: nat)
    requires i < |headers|
    ensures RowPrefix(headers, vals, i + 1) == Put(RowPrefix(headers, vals, i), headers[i], Cell(vals, i))
  {
  }

  /** The row object built from one line's columns. */
  function RowOf(headers: seq<string>, vals: seq<string>): Row {
    RowPrefix(headers, vals, |headers|)
  }

  /** Every header becomes a key, once, in the order headers first appear. */
  lemma {:induction false} RowKeys(headers: seq<string>, vals: seq<string>, n: nat)
    requires n <= |headers|
    ensures Keys(RowPrefix(headers, vals, n)) == Dedup(headers[..n])
  {
    if n > 0 {
      var front := headers[..n - 1];
      var h := headers[n - 1];
      var o := RowPrefix(headers, vals, n - 1);
      RowKeys(headers, vals, n - 1);
      PutKeys(o, h, Cell(vals, n - 1));
      var d := Dedup(front);
      DedupMember(front, h);
      var hp := headers[..n];
      assert hp[..|hp| - 1] == front;
      assert hp[|hp| - 1] == h;
      assert Dedup(hp) == if h in d then d else d + [h];
    }
  }

  /** Every value of a row object is already trimmed. */
  lemma {:induction false} RowValuesTrimmed(headers: seq<string>, vals: seq<string>, n: nat)
    requires n <= |headers|
    ensures forall i :: 0 <= i < |RowPrefix(headers, vals, n)| ==>
      Trim(RowPrefix(headers, vals, n)[i].value) == RowPrefix(headers, vals, n)[i].value
  {
    if n > 0 {
      RowValuesTrimmed(headers, vals, n - 1);
      var c := Cell(vals, n - 1);
      PutFields(RowPrefix(headers, vals, n - 1), headers[n - 1], c);
      if n - 1 < |vals| && vals[n - 1] != "" {
        TrimIdempotent(vals[n - 1]);
      } else {
        assert c == "";
      }
    }
  }

  /** A header that appears once more later is overwritten; the last column
      of a given name decides its value, and a column the line lacks is "". */
  lemma {:induction false} RowLastWins(headers: seq<string>, vals: seq<string>, j: nat, n: nat)
    requires j < n <= |headers|
    requires forall k :: j < k < n ==> headers[k] != headers[j]
    ensures Get(RowPrefix(headers, vals, n), headers[j]) == Some(Cell(vals, j))
    ensures j >= |vals| ==> Get(RowPrefix(headers, vals, n), headers[j]) == Some("")
  {
    var o := RowPrefix(headers, vals, n - 1);
    var h := headers[n - 1];
    assert RowPrefix(headers, vals, n) == Put(o, h, Cell(vals, n - 1));
    PutGet(o, h, Cell(vals, n - 1), headers[j]);
    if n > j + 1 {
      assert h != headers[j];
      RowLastWins(headers, vals, j, n - 1);
    } else {
      assert h == headers[j];
    }
  }

  /** The lines `filter((x) => x.trim())` keeps. */
  predicate IsContentLine(line: string) {
    Trim(line) != ""
  }

  function NonBlankLines(csv: string): seq<string> {
    Keep(Split(csv, '\n'), IsContentLine)
  }

  /** `lines[0].split(",").map((h) => h.trim())`. */
  function Headers(line: string): (hs: seq<string>)
    ensures |hs| == |Split(line, ',')|
  {
    var parts := Split(line, ',');
    seq(|parts|, i requires 0 <= i < |parts| => Trim(parts[i]))
  }

  /** One row object per data line, in order. */
  function RowsOf(headers: seq<string>, lines: seq<string>): (rows: seq<Row>)
    ensures |rows| == |lines|
  {
    if lines == [] then []
    else RowsOf(headers, lines[..|lines| - 1]) + [RowOf(headers, Split(lines[|lines| - 1], ','))]
  }

  lemma RowsOfStep(headers: seq<string>, lines: seq<string>, i: nat)
    requires i < |lines|
    ensures RowsOf(headers, lines[..i + 1]) == RowsOf(headers, lines[..i]) + [RowOf(headers, Split(lines[i], ','))]
  {
    assert lines[..i + 1][..i] == lines[..i];
  }

  lemma {:induction false} RowsOfIndex(headers: seq<string>, lines: seq<string>, i: nat)
    requires i < |lines|
    ensures RowsOf(headers, lines)[i] == RowOf(headers, Split(lines[i], ','))
  {
    if i < |lines| - 1 {
      RowsOfIndex(headers, lines[..|lines| - 1], i);
    }
  }

  /** csvToJson, as a value: the rows, or the error the script throws. */
  function ParseCsv(csv: string): (r: Result<seq<Row>, CsvError>)
    ensures r.Failure? <==> NonBlankLines(csv) == []
    ensures r.Success? ==> |r.value| == |NonBlankLines(csv)| - 1
  {
    var lines := NonBlankLines(csv);
    if lines == [] then Failure(NoHeaderLine)
    else
      var headers := Headers(lines[0]);
      Success(RowsOf(headers, lines[1..]))
  }

  lemma GlueBlank(a: string, sep: char, b: string)
    requires IsWhitespace(sep)
    ensures IsBlank(a + [sep] + b) <==> IsBlank(a) && IsBlank(b)
  {
    var j := a + [sep] + b;
    if IsBlank(j) {
      forall i | 0 <= i < |a| ensures IsWhitespace(a[i]) { assert a[i] == j[i]; }
      forall i | 0 <= i < |b| ensures IsWhitespace(b[i]) { assert b[i] == j[|a| + 1 + i]; }
    }
  }

  lemma {:induction false} JoinBlank(parts: seq<string>, sep: char)
    requires IsWhitespace(sep)
    ensures IsBlank(Join(parts, sep)) <==> forall k :: 0 <= k < |parts| ==> IsBlank(parts[k])
  {
    if |parts| > 1 {
      var tail := parts[1..];
      JoinBlank(tail, sep);
      GlueBlank(parts[0], sep, Join(tail, sep));
      assert forall k :: 0 < k < |parts| ==> parts[k] == tail[k - 1];
    }
  }

  /** The script throws exactly when the text is nothing but whitespace. */
  lemma ParseFailsIffBlank(csv: string)
    ensures ParseCsv(csv).Failure? <==> IsBlank(csv)
  {
    var lines := Split(csv, '\n');
    forall line | line in lines ensures IsContentLine(line) <==> !IsBlank(line) {
      TrimSpec(line);
    }
    JoinSplit(csv, '\n');
    JoinBlank(lines, '\n');
    if IsBlank(csv) {
      KeepNone(lines, IsContentLine);
    } else {
      var k :| 0 <= k < |lines| && !IsBlank(lines[k]);
      KeepMembership(lines, IsContentLine, lines[k]);
    }
  }

  /** The kept lines are exactly the non-blank pieces between line breaks:
      in order, each as often as it occurs, and nothing else. */
  lemma NonBlankLinesSpec(csv: string)
    ensures forall k :: 0 <= k < |NonBlankLines(csv)| ==>
      IsContentLine(NonBlankLines(csv)[k]) && '\n' !in NonBlankLines(csv)[k]
    ensures IsSubsequence(NonBlankLines(csv), Split(csv, '\n'))
    ensures forall j :: 0 <= j < |Split(csv, '\n')| && IsContentLine(Split(csv, '\n')[j]) ==>
      Split(csv, '\n')[j] in NonBlankLines(csv)
    ensures forall line :: IsContentLine(line) ==>
      multiset(NonBlankLines(csv))[line] == multiset(Split(csv, '\n'))[line]
  {
    var lines := Split(csv, '\n');
    forall j | 0 <= j < |lines| && IsContentLine(lines[j])
      ensures lines[j] in NonBlankLines(csv)
    {
      KeepMembership(lines, IsContentLine, lines[j]);
    }
    forall line | IsContentLine(line)
      ensures multiset(NonBlankLines(csv))[line] == multiset(lines)[line]
    {
      KeepCounts(lines, IsContentLine, line);
    }
    KeepPasses(lines, IsContentLine);
    forall k | 0 <= k < |NonBlankLines(csv)|
      ensures '\n' !in NonBlankLines(csv)[k]
    {
      KeepMembership(lines, IsContentLine, NonBlankLines(csv)[k]);
    }
    KeepIsSubsequence(lines, IsContentLine);
  }

  /** Each row has every header as a key, once, in first-appearance order,
      and only trimmed values. */
  lemma ParsedRow(csv: string, i: nat)
    requires ParseCsv(csv).Success? && i < |ParseCsv(csv).value|
    ensures var headers := Headers(NonBlankLines(csv)[0]);
      var row := ParseCsv(csv).value[i];
      && Keys(row) == Dedup(headers)
      && forall k :: 0 <= k < |row| ==> Trim(row[k].value) == row[k].value
  {
    var lines := NonBlankLines(csv);
    var headers := Headers(lines[0]);
    var vals := Split(lines[i + 1], ',');
    RowsOfIndex(headers, lines[1..], i);
    assert ParseCsv(csv).value[i] == RowOf(headers, vals);
    RowKeys(headers, vals, |headers|);
    assert headers[..|headers|] == headers;
    RowValuesTrimmed(headers, vals, |headers|);
  }

  /** Fills one row object column by column, as the `headers.forEach` loop does. */
  method FillRow(headers: seq<string>, vals: seq<string>) returns (o: Row)
    ensures o == RowOf(headers, vals)
  {
    o := [];
    var i := 0;
    while i < |headers|
      invariant 0 <= i <= |headers|
      invariant o == RowPrefix(headers, vals, i)
    {
      RowPrefixNext(headers, vals, i);
      o := Put(o, headers[i], Cell(vals, i));
      i := i + 1;
    }
  }

  /** csvToJson: splits into lines, drops blank ones, reads the header line
      and builds one row object per remaining line. */
  method CsvToJson(csv: string) returns (r: Result<seq<Row>, CsvError>)
    ensures r == ParseCsv(csv)
  {
    var lines := NonBlankLines(csv);
    if |lines| == 0 {
      return Failure(NoHeaderLine);
    }
    var headers := Headers(lines[0]);
    var data := lines[1..];
    var rows: seq<Row> := [];
    var i := 0;
    while i < |data|
      invariant i <= |data|
      invariant rows == RowsOf(headers, data[..i])
    {
      var o := FillRow(headers, Split(data[i], ','));
      RowsOfStep(headers, data, i);
      rows := rows + [o];
      i := i + 1;
    }
    assert data[..i] == data;
    return Success(rows);
  }
}
