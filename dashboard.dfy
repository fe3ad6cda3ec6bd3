/** The page's global state and the handlers that change it: loading the
    two directory files and the services file, validateData,
    buildCityDistrictMap, searchData and the prev/next buttons. */
module Dashboard {
  import opened Wrappers
  import opened JsText
  import opened Seqs
  import opened Csv
  import opened Records
  import opened Addresses
  import opened CityMap
  import opened Search
  import opened Paging

  /** One entry of the `files` list: the CSV text fetched for it and its label. */
  datatype SourceFile = SourceFile(text: string, source: string)

  /** The two directory files, in load order. */
  function DirectoryFiles(homeCareCsv: string, hospiceCsv: string): seq<SourceFile> {
    [SourceFile(homeCareCsv, HOME_CARE_SOURCE), SourceFile(hospiceCsv, HOSPICE_SOURCE)]
  }

  /** The records `merged` holds after the loop over `files`, or None when
      csvToJson throws on one of them. */
  function MergeFiles(files: seq<SourceFile>): Option<seq<Record>> {
    if files == [] then Some([])
    else
      var last := files[|files| - 1];
      match (MergeFiles(files[..|files| - 1]), ParseCsv(last.text))
      case (Some(prev), Success(rows)) => Some(prev + ToRecords(rows, last.source))
      case _ => None
  }

  /** Merging fails exactly when some file has no non-blank line, and
      otherwise yields the records of every file, file after file. */
  lemma {:induction false} MergeFilesSpec(files: seq<SourceFile>)
    ensures MergeFiles(files).None? <==> exists i :: 0 <= i < |files| && IsBlank(files[i].text)
    ensures MergeFiles(files).Some? ==> |MergeFiles(files).value| == NonBlankLineTotal(files)
  {
    if files != [] {
      var front := files[..|files| - 1];
      var last := files[|files| - 1];
      MergeFilesSpec(front);
      ParseFailsIffBlank(last.text);
      if exists i :: 0 <= i < |front| && IsBlank(front[i].text) {
        var i :| 0 <= i < |front| && IsBlank(front[i].text);
        assert files[i] == front[i];
      }
      if exists i :: 0 <= i < |files| && IsBlank(files[i].text) {
        var i :| 0 <= i < |files| && IsBlank(files[i].text);
        if i < |front| {
          assert files[i] == front[i];
        }
      }
    }
  }

  /** For the script's two files: the home-care records, then the hospice
      records, each tagged with its file's label; nothing if either file is blank. */
  lemma DirectoryFilesMerge(homeCareCsv: string, hospiceCsv: string)
    ensures MergeFiles(DirectoryFiles(homeCareCsv, hospiceCsv))
      == if ParseCsv(homeCareCsv).Success? && ParseCsv(hospiceCsv).Success?
         then Some(ToRecords(ParseCsv(homeCareCsv).value, HOME_CARE_SOURCE)
                   + ToRecords(ParseCsv(hospiceCsv).value, HOSPICE_SOURCE))
         else None
  {
    var files := DirectoryFiles(homeCareCsv, hospiceCsv);
    var first := files[..1];
    assert first == [SourceFile(homeCareCsv, HOME_CARE_SOURCE)];
    assert first[..0] == [];
    assert MergeFiles(first[..0]) == Some([]);
    assert MergeFiles(first) == if ParseCsv(homeCareCsv).Success?
      then Some([] + ToRecords(ParseCsv(homeCareCsv).value, HOME_CARE_SOURCE)) else None;
    if ParseCsv(homeCareCsv).Success? {
      var rs := ToRecords(ParseCsv(homeCareCsv).value, HOME_CARE_SOURCE);
      assert [] + rs == rs;
    }
  }

  /** The number of records the files contribute: one per non-blank line
      after each file's first. */
  function NonBlankLineTotal(files: seq<SourceFile>): int {
    if files == [] then 0
    else NonBlankLineTotal(files[..|files| - 1]) + |NonBlankLines(files[|files| - 1].text)| - 1
  }

  /** `merged` after the `replaceAll("臺", "台")` pass. */
  function FoldAll(ds: seq<Record>): (r: seq<Record>)
    ensures |r| == |ds|
  {
    seq(|ds|, i requires 0 <= i < |ds| => WithFoldedAddress(ds[i]))
  }

  /** The folded data keeps every record in place and leaves no 臺 in any address. */
  lemma FoldAllSpec(ds: seq<Record>)
    ensures forall i :: 0 <= i < |ds| ==>
      && FoldAll(ds)[i].name == ds[i].name && FoldAll(ds)[i].phone == ds[i].phone
      && FoldAll(ds)[i].team == ds[i].team && FoldAll(ds)[i].code == ds[i].code
      && FoldAll(ds)[i].source == ds[i].source
      && |FoldAll(ds)[i].address| == |ds[i].address|
      && forall k :: 0 <= k < |FoldAll(ds)[i].address| ==> FoldAll(ds)[i].address[k] != '臺'
  {
    forall i | 0 <= i < |ds| {
      FoldVariantSpec(ds[i].address);
    }
  }

  /** serviceData after the services try block: the parsed rows when the
      fetch succeeded and the text has a header line, else as it was. */
  function ServicesAfter(prev: seq<Row>, servicesCsv: Option<string>): seq<Row> {
    if servicesCsv.Some? && ParseCsv(servicesCsv.value).Success? then ParseCsv(servicesCsv.value).value else prev
  }

  /** The validated data holds exactly the records of the data whose name
      and address are not blank, in their original order. */
  lemma ValidatedSpec(data: seq<Record>)
    ensures IsSubsequence(Keep(data, IsComplete), data)
    ensures forall d :: d in Keep(data, IsComplete) <==> d in data && !IsBlank(d.name) && !IsBlank(d.address)
  {
    KeepIsSubsequence(data, IsComplete);
    forall d ensures d in Keep(data, IsComplete) <==> d in data && !IsBlank(d.name) && !IsBlank(d.address) {
      KeepMembership(data, IsComplete, d);
      CompleteIffNotBlank(d);
    }
  }

  /** The globals of the directory page. */
  class Directory {
    var allData: seq<Record>
    var currentData: seq<Record>
    var currentPage: int
    var cityDistrictMap: CityDistricts
    var serviceData: seq<Row>

    /** The current page is one the pager can show. */
    ghost predicate Valid()
      reads this
    {
      PageValid(|currentData|, currentPage)
    }

    /** The globals as declared, after the `validateData()` call made when
        the script is read, before any data is fetched. */
    constructor ()
      ensures allData == [] && currentData == [] && currentPage == 1
      ensures cityDistrictMap == map[] && serviceData == []
      ensures Valid()
    {
      allData := [];
      currentData := [];
      currentPage := 1;
      cityDistrictMap := map[];
      serviceData := [];
      new;
      ValidateData();
    }

    /** validateData: drops the records with a blank name or address. */
    method ValidateData()
      modifies this`allData
      ensures allData == Keep(old(allData), IsComplete)
    {
      allData := Keep(allData, IsComplete);
    }

    /** buildCityDistrictMap(data): adds each record's classified
        (city, district) pair, creating the city's set when it is missing. */
    method BuildCityDistrictMap(data: seq<Record>)
      modifies this`cityDistrictMap
      ensures cityDistrictMap == WithPairs(old(cityDistrictMap), data)
    {
      var i := 0;
      while i < |data|
        invariant 0 <= i <= |data|
        invariant cityDistrictMap == WithPairs(old(cityDistrictMap), data[..i])
      {
        AddRecordPair(data[i]);
        WithPairsStep(old(cityDistrictMap), data, i);
        i := i + 1;
      }
      assert data[..|data|] == data;
    }

    /** The `data.forEach` body for one record: classify its address, create
        the city's set if missing and add the district to it. */
    method AddRecordPair(d: Record)
      modifies this`cityDistrictMap
      ensures cityDistrictMap == AddPair(old(cityDistrictMap), Classify(d.address).0, Classify(d.address).1)
    {
      var pair := Classify(d.address);
      var city, dist := pair.0, pair.1;
      if city !in cityDistrictMap {
        cityDistrictMap := cityDistrictMap[city := {}];
      }
      cityDistrictMap := cityDistrictMap[city := cityDistrictMap[city] + {dist}];
    }

    /** searchData: the filtered data becomes current and the first page shows. */
    method SearchData(city: string, dist: string, keyword: string)
      modifies this`currentData, this`currentPage
      ensures currentData == SearchResult(allData, city, dist, keyword)
      ensures currentPage == 1 && Valid()
    {
      currentData := SearchResult(allData, city, dist, keyword);
      currentPage := 1;
    }

    /** A click on "← 上一頁": acts only when the pager is drawn and the
        button is enabled. */
    method ClickPrev() returns (moved: bool)
      requires Valid()
      modifies this`currentPage
      ensures currentPage == AfterPrev(|currentData|, old(currentPage))
      ensures moved <==> currentPage == old(currentPage) - 1
      ensures Valid()
    {
      NavigationStaysInRange(|currentData|, currentPage);
      var pager := Pagination(|currentData|, currentPage);
      if pager.Some? && !pager.value.prevDisabled {
        currentPage := currentPage - 1;
        moved := true;
      } else {
        moved := false;
      }
    }

    /** A click on "下一頁 →": acts only when the pager is drawn and the
        button is enabled. */
    method ClickNext() returns (moved: bool)
      requires Valid()
      modifies this`currentPage
      ensures currentPage == AfterNext(|currentData|, old(currentPage))
      ensures moved <==> currentPage == old(currentPage) + 1
      ensures Valid()
    {
      NavigationStaysInRange(|currentData|, currentPage);
      var pager := Pagination(|currentData|, currentPage);
      if pager.Some? && !pager.value.nextDisabled {
        currentPage := currentPage + 1;
        moved := true;
      } else {
        moved := false;
      }
    }

    /** What renderTablePage draws for the current state. */
    function CurrentTable(): (v: TableView<Record>)
      reads this
      requires Valid()
      ensures v.NoData? <==> currentData == []
      ensures v.Table? ==>
        && (currentPage - 1) * PAGE_SIZE < Min(currentPage * PAGE_SIZE, |currentData|) <= |currentData|
        && v.rows == currentData[(currentPage - 1) * PAGE_SIZE .. Min(currentPage * PAGE_SIZE, |currentData|)]
        && 1 <= |v.rows| <= PAGE_SIZE
    {
      RenderSpec(currentData, currentPage);
      RenderTablePage(currentData, currentPage)
    }

    /** The DOMContentLoaded handler, given the fetched text of each entry
        of `files` (in the script, DirectoryFiles(home care text, hospice
        text)) and of the services file. The directory files are parsed,
        mapped and merged in order; csvToJson throwing on any of them ends
        the handler before any global is assigned. `servicesCsv` is None
        when the services fetch fails; a failed fetch or parse leaves
        serviceData as it was. */
    method Load(files: seq<SourceFile>, servicesCsv: Option<string>) returns (loaded: bool)
      modifies this
      ensures var merged := MergeFiles(files);
        && (loaded <==> merged.Some?)
        && (!loaded ==> unchanged(this))
        && (loaded ==>
              && allData == FoldAll(merged.value)
              && cityDistrictMap == WithPairs(old(cityDistrictMap), allData)
              && currentData == allData
              && serviceData == ServicesAfter(old(serviceData), servicesCsv))
      ensures currentPage == old(currentPage)
      ensures old(currentPage) == 1 ==> Valid()
    {
      loaded := LoadDirectory(files);
      if loaded {
        LoadServices(servicesCsv);
        currentData := allData;
      }
    }

    /** The directory part of the handler: merge the files, fold the
        addresses, store the result in allData and build the map from it. */
    method LoadDirectory(files: seq<SourceFile>) returns (loaded: bool)
      modifies this`allData, this`cityDistrictMap
      ensures loaded <==> MergeFiles(files).Some?
      ensures !loaded ==> allData == old(allData) && cityDistrictMap == old(cityDistrictMap)
      ensures loaded ==>
        && allData == FoldAll(MergeFiles(files).value)
        && cityDistrictMap == WithPairs(old(cityDistrictMap), allData)
    {
      var merged := MergeDirectoryFiles(files);
      if merged.None? {
        return false;
      }
      allData := FoldAddressesOf(merged.value);
      BuildCityDistrictMap(allData);
      loaded := true;
    }

    /** The services try block: serviceData takes the parsed rows when the
        fetch succeeds and csvToJson does not throw. */
    method LoadServices(servicesCsv: Option<string>)
      modifies this`serviceData
      ensures serviceData == ServicesAfter(old(serviceData), servicesCsv)
    {
      if servicesCsv.Some? {
        var services := CsvToJson(servicesCsv.value);
        if services.Success? {
          serviceData := services.value;
        }
      }
    }
  }

  /** The `for (const f of files)` loop: parses each file in turn, maps its
      rows to records and appends them; a parse failure ends the loop. */
  method MergeDirectoryFiles(files: seq<SourceFile>) returns (r: Option<seq<Record>>)
    ensures r == MergeFiles(files)
  {
    var merged: seq<Record> := [];
    var i := 0;
    while i < |files|
      invariant 0 <= i <= |files|
      invariant MergeFiles(files[..i]) == Some(merged)
    {
      var json := CsvToJson(files[i].text);
      assert files[..i + 1][..i] == files[..i];
      if json.Failure? {
        MergeStaysFailed(files, i + 1);
        return None;
      }
      merged := merged + ToRecords(json.value, files[i].source);
      i := i + 1;
    }
    assert files[..|files|] == files;
    return Some(merged);
  }

  /** The `merged.forEach` pass over a fresh array holding the records. */
  method FoldAddressesOf(merged: seq<Record>) returns (r: seq<Record>)
    ensures r == FoldAll(merged)
  {
    var a := new Record[|merged|](k requires 0 <= k < |merged| => merged[k]);
    FoldAddresses(a);
    r := a[..];
  }

  /** Once a prefix of the files fails to merge, so do all the files. */
  lemma {:induction false} MergeStaysFailed(files: seq<SourceFile>, n: nat)
    requires n <= |files| && MergeFiles(files[..n]).None?
    ensures MergeFiles(files).None?
    decreases |files| - n
  {
    if n < |files| {
      var longer := files[..n + 1];
      assert longer[..n] == files[..n];
      assert MergeFiles(longer).None?;
      MergeStaysFailed(files, n + 1);
    } else {
      assert files[..n] == files;
    }
  }
}
