/** The record the directory shows for one institution, built from a CSV
    row with per-column fallbacks, and the clean-ups applied to it. */
module Records {
  import opened Wrappers
  import opened JsText
  import opened Csv

  /** One institution: 名稱, 地址, 電話, 團隊, 代碼 and 來源 in the script. */
  datatype Record = Record(name: string, address: string, phone: string, team: string, code: string, source: string)

  /** The 來源 labels of the two institution files, in load order. */
  const HOME_CARE_SOURCE := "居家醫療機構"
  const HOSPICE_SOURCE := "安寧照護／護理之家"

  /** `x[primary] || x[fallback] || ""`: undefined and "" are both falsy. */
  function Pick(o: Row, primary: string, fallback: string): string {
    var p, f := Get(o, primary), Get(o, fallback);
    if p.Some? && p.value != "" then p.value
    else if f.Some? && f.value != "" then f.value
    else ""
  }

  /** The primary column wins whenever it holds text; the fallback column is
      read only otherwise; "" means neither holds text. */
  lemma PickSpec(o: Row, primary: string, fallback: string)
    ensures var r := Pick(o, primary, fallback);
      && (Get(o, primary).Some? && Get(o, primary).value != "" ==> r == Get(o, primary).value)
      && (r != "" && r != Get(o, primary).GetOr("") ==> Get(o, fallback) == Some(r))
      && (r == "" <==> Get(o, primary).GetOr("") == "" && Get(o, fallback).GetOr("") == "")
  {
  }

  /** The mapping of one parsed row to a record, tagged with its file's label. */
  function ToRecord(o: Row, source: string): Record {
    Record(
      name := Pick(o, "醫事機構名稱", "名稱"),
      address := Pick(o, "醫事機構地址", "地址"),
      phone := Pick(o, "醫事機構電話", "電話"),
      team := Pick(o, "整合團隊名稱", "團隊"),
      code := Pick(o, "醫事機構代碼", "代碼"),
      source := source)
  }

  function ToRecords(rows: seq<Row>, source: string): (rs: seq<Record>)
    ensures |rs| == |rows|
  {
    seq(|rows|, i requires 0 <= i < |rows| => ToRecord(rows[i], source))
  }

  /** `if (d.地址) d.地址 = d.地址.replaceAll("臺", "台")`. */
  function FoldVariant(address: string): string {
    if address != "" then ReplaceChar(address, '臺', '台') else address
  }

  /** Folding leaves no 臺, changes no other character, and is idempotent. */
  lemma FoldVariantSpec(address: string)
    ensures var r := FoldVariant(address);
      && |r| == |address|
      && '臺' !in r
      && (forall i :: 0 <= i < |r| ==> r[i] == address[i] || (address[i] == '臺' && r[i] == '台'))
      && FoldVariant(r) == r
  {
    var r := FoldVariant(address);
    assert forall i :: 0 <= i < |r| ==> r[i] != '臺';
    var rr := FoldVariant(r);
    assert forall i :: 0 <= i < |r| ==> rr[i] == r[i];
  }

  function WithFoldedAddress(d: Record): Record {
    d.(address := FoldVariant(d.address))
  }

  /** The `merged.forEach` pass: folds every address in place. */
  method FoldAddresses(a: array<Record>)
    modifies a
    ensures forall i :: 0 <= i < a.Length ==> a[i] == WithFoldedAddress(old(a[i]))
  {
    var i := 0;
    while i < a.Length
      invariant 0 <= i <= a.Length
      invariant forall k :: 0 <= k < i ==> a[k] == WithFoldedAddress(old(a[k]))
      invariant forall k :: i <= k < a.Length ==> a[k] == old(a[k])
    {
      a[i] := WithFoldedAddress(a[i]);
      i := i + 1;
    }
  }

  /** `safe(v, def)`: the default for undefined or null, the value otherwise. */
  function Safe(v: Option<string>, def: string): string {
    match v
    case Some(s) => s
    case None => def
  }

  /** `safe(v).trim()` is truthy exactly when the value is present and not blank. */
  lemma SafeTrimTruthy(v: Option<string>)
    ensures Trim(Safe(v, "")) != "" <==> v.Some? && !IsBlank(v.value)
  {
    if v.Some? {
      TrimSpec(v.value);
    }
  }

  /** The validateData test `safe(d.名稱).trim() && safe(d.地址).trim()`;
      a record always has both properties, so each is read as present. */
  predicate IsComplete(d: Record) {
    Trim(Safe(Some(d.name), "")) != "" && Trim(Safe(Some(d.address), "")) != ""
  }

  /** A record passes validation exactly when neither its name nor its
      address is blank. */
  lemma CompleteIffNotBlank(d: Record)
    ensures IsComplete(d) <==> !IsBlank(d.name) && !IsBlank(d.address)
  {
    TrimSpec(d.name);
    TrimSpec(d.address);
  }
}
