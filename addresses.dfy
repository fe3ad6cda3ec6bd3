/** Address classification (the body of buildCityDistrictMap): the city is
    the first listed city the address starts with, and the district is the
    leftmost match of /[一-龥]{1,3}(區|鄉|鎮|市)/ in what is left
    once the first occurrence of the city string is removed. */
module Addresses {
  import opened Wrappers
  import opened JsText
  import opened Records

  /** cityList, in the script's order. */
  const CITY_LIST: seq<string> := [
    "台北市", "新北市", "桃園市", "台中市", "台南市", "高雄市", "基隆市", "新竹市", "嘉義市",
    "新竹縣", "苗栗縣", "彰化縣", "南投縣", "雲林縣", "嘉義縣", "屏東縣", "宜蘭縣", "花蓮縣",
    "台東縣", "澎湖縣", "金門縣", "連江縣"
  ]

  /** The value used when no city or no district is found. */
  const OTHER := "其他"

  /** `list.find((c) => addr.startsWith(c))`, searching from entry `k`. */
  function FindPrefix(addr: string, list: seq<string>, k: nat): Option<string>
    decreases |list| - k
  {
    if k >= |list| then None
    else if StartsWith(addr, list[k]) then Some(list[k])
    else FindPrefix(addr, list, k + 1)
  }

  /** `cityList.find((c) => addr.startsWith(c)) || "其他"`. */
  function CityOf(addr: string): string {
    FindPrefix(addr, CITY_LIST, 0).GetOr(OTHER)
  }

  lemma {:induction false} FindPrefixSpec(addr: string, list: seq<string>, k: nat)
    ensures var c := FindPrefix(addr, list, k);
      && (c.None? <==> forall j :: k <= j < |list| ==> !StartsWith(addr, list[j]))
      && (c.Some? ==> exists j :: k <= j < |list| && c.value == list[j] && StartsWith(addr, c.value)
                             && forall j' :: k <= j' < j ==> !StartsWith(addr, list[j']))
    decreases |list| - k
  {
    if k < |list| {
      var c := FindPrefix(addr, list, k);
      if StartsWith(addr, list[k]) {
        assert c == Some(list[k]);
      } else {
        FindPrefixSpec(addr, list, k + 1);
        assert c == FindPrefix(addr, list, k + 1);
        if c.Some? {
          var j :| k + 1 <= j < |list| && c.value == list[j] && StartsWith(addr, c.value)
            && forall j' :: k + 1 <= j' < j ==> !StartsWith(addr, list[j']);
          assert forall j' :: k <= j' < j ==> !StartsWith(addr, list[j']);
        }
      }
    }
  }

  /** The city is the first entry of the list, in list order, that the address
      starts with, and 其他 exactly when there is none; so it is always a
      listed city or 其他. */
  lemma CityOfSpec(addr: string)
    ensures var c := CityOf(addr);
      && (c in CITY_LIST || c == OTHER)
      && (c == OTHER <==> forall j :: 0 <= j < |CITY_LIST| ==> !StartsWith(addr, CITY_LIST[j]))
      && (c != OTHER ==> exists j :: 0 <= j < |CITY_LIST| && c == CITY_LIST[j] && StartsWith(addr, c)
                             && forall j' :: 0 <= j' < j ==> !StartsWith(addr, CITY_LIST[j']))
  {
    FindPrefixSpec(addr, CITY_LIST, 0);
    assert OTHER !in CITY_LIST;
  }

  /** The character class [一-龥]. */
  predicate IsHan(c: char) {
    '\U{4E00}' <= c <= '\U{9FA5}'
  }

  /** The alternatives (區|鄉|鎮|市). */
  predicate IsUnitSuffix(c: char) {
    c == '區' || c == '鄉' || c == '鎮' || c == '市'
  }

  /** The pattern matches at `i` taking `k` ideographs before the suffix. */
  predicate MatchesAt(s: string, i: nat, k: nat) {
    && 1 <= k <= 3
    && i + k < |s|
    && (forall j :: i <= j < i + k ==> IsHan(s[j]))
    && IsUnitSuffix(s[i + k])
  }

  /** Greedy {1,3} with backtracking: the most ideographs that still let
      the suffix follow. */
  function GreedyAt(s: string, i: nat): Option<nat> {
    if MatchesAt(s, i, 3) then Some(3)
    else if MatchesAt(s, i, 2) then Some(2)
    else if MatchesAt(s, i, 1) then Some(1)
    else None
  }

  /** `s.match(...)` tried from index `i` on: the first start that matches. */
  function ScanFrom(s: string, i: nat): Option<string>
    decreases |s| - i
  {
    if i >= |s| then None
    else match GreedyAt(s, i)
      case Some(k) => Some(s[i..i + k + 1])
      case None => ScanFrom(s, i + 1)
  }

  /** `m ? m[0] : "其他"`. */
  function DistrictOf(rest: string): string {
    match ScanFrom(rest, 0)
    case Some(m) => m
    case None => OTHER
  }

  /** (city, district) of one address, as buildCityDistrictMap computes it. */
  function Classify(addr: string): (string, string) {
    var city := CityOf(addr);
    (city, DistrictOf(ReplaceFirst(addr, city, "")))
  }

  /** The match starts at `i` with `k` ideographs, no earlier start matches,
      and no longer run matches at `i`. */
  ghost predicate LeftmostLongest(s: string, i: nat, k: nat) {
    && MatchesAt(s, i, k)
    && (forall j: nat, k': nat :: j < i ==> !MatchesAt(s, j, k'))
    && (forall k': nat :: k < k' ==> !MatchesAt(s, i, k'))
  }

  lemma {:induction false} ScanFromSpec(s: string, i: nat)
    requires forall j: nat, k: nat :: j < i ==> !MatchesAt(s, j, k)
    ensures ScanFrom(s, i).None? <==> forall j: nat, k: nat :: !MatchesAt(s, j, k)
    ensures ScanFrom(s, i).Some? ==>
      exists j: nat, k: nat :: LeftmostLongest(s, j, k) && ScanFrom(s, i).value == s[j..j + k + 1]
    decreases |s| - i
  {
    if i >= |s| {
      forall j: nat, k: nat ensures !MatchesAt(s, j, k) {
        if j >= i {
          assert j + k >= |s|;
        }
      }
    } else {
      match GreedyAt(s, i)
      case Some(k) =>
        assert LeftmostLongest(s, i, k);
      case None =>
        assert forall k: nat :: !MatchesAt(s, i, k);
        ScanFromSpec(s, i + 1);
    }
  }

  /** The district is the leftmost, then longest, match of the pattern, and
      其他 exactly when the pattern does not match; a found district is two
      to four characters long, all ideographs, ending in 區, 鄉, 鎮 or 市. */
  lemma DistrictOfSpec(rest: string)
    ensures var d := DistrictOf(rest);
      && (d == OTHER <==> forall i: nat, k: nat :: !MatchesAt(rest, i, k))
      && (d != OTHER ==> exists i: nat, k: nat :: LeftmostLongest(rest, i, k) && d == rest[i..i + k + 1])
      && (d != OTHER ==> 2 <= |d| <= 4 && IsUnitSuffix(d[|d| - 1])
                         && forall j :: 0 <= j < |d| - 1 ==> IsHan(d[j]))
  {
    ScanFromSpec(rest, 0);
    var d := DistrictOf(rest);
    if ScanFrom(rest, 0).Some? {
      var i: nat, k: nat :| LeftmostLongest(rest, i, k) && d == rest[i..i + k + 1];
      assert d[|d| - 1] == rest[i + k];
      assert d != OTHER by {
        assert OTHER[1] == '他';
        assert !IsUnitSuffix(OTHER[1]);
      }
    }
  }

  /** When a city is found the address loses exactly that prefix before the
      district is looked for. */
  lemma ClassifyStripsCity(addr: string)
    requires CityOf(addr) != OTHER
    ensures |CityOf(addr)| <= |addr| && Classify(addr).1 == DistrictOf(addr[|CityOf(addr)|..])
  {
    CityOfSpec(addr);
    ReplacePrefix(addr, CityOf(addr));
  }

  /** No listed city starts with 中. */
  lemma NoCityStartsWithZhong(addr: string)
    requires addr != [] && addr[0] == '中'
    ensures CityOf(addr) == OTHER
  {
    forall j | 0 <= j < |CITY_LIST| ensures !StartsWith(addr, CITY_LIST[j]) {
      assert CITY_LIST[j][0] != '中';
    }
    FindPrefixSpec(addr, CITY_LIST, 0);
  }

  /** With no city found, replace("其他", "") still removes the first 其他
      anywhere in the address, which changes the district found. */
  lemma OtherRemovedAnywhere()
    ensures Classify("中其他區") == (OTHER, "中區")
    ensures DistrictOf("中其他區") == "中其他區"
  {
    var addr := "中其他區";
    NoCityStartsWithZhong(addr);
    assert OccursAt(addr, OTHER, 1);
    assert !OccursAt(addr, OTHER, 0);
    var rest := ReplaceFirst(addr, OTHER, "");
    assert rest == "中區";
    assert IsHan('中') && IsUnitSuffix('區');
    assert GreedyAt(rest, 0) == Some(1);
    assert rest[0..2] == "中區";
    assert ScanFrom(rest, 0) == Some("中區");
    assert IsHan('其') && IsHan('他');
    assert GreedyAt(addr, 0) == Some(3);
    assert addr[0..4] == addr;
    assert ScanFrom(addr, 0) == Some(addr);
  }

  /** Example: 台北市大安區復興南路一段1號 is 台北市, 大安區. */
  lemma ClassifyExample()
    ensures Classify("台北市大安區復興南路一段1號") == ("台北市", "大安區")
  {
    var addr := "台北市大安區復興南路一段1號";
    assert StartsWith(addr, CITY_LIST[0]);
    assert CityOf(addr) == "台北市";
    ReplacePrefix(addr, "台北市");
    var rest := addr[3..];
    assert rest == "大安區復興南路一段1號";
    assert !MatchesAt(rest, 0, 3);
    assert IsHan('大') && IsHan('安') && IsUnitSuffix('區');
    assert GreedyAt(rest, 0) == Some(2);
    assert rest[0..3] == "大安區";
    assert ScanFrom(rest, 0) == Some("大安區");
  }

  lemma FoldsTaipei()
    ensures FoldVariant("臺北市中山區") == "台北市中山區"
  {
    var addr := FoldVariant("臺北市中山區");
    assert addr[0] == '台' && addr[1] == '北' && addr[2] == '市';
    assert addr[3] == '中' && addr[4] == '山' && addr[5] == '區';
  }

  /** Example: 臺 is folded first, so 臺北市中山區 is classified as 台北市, 中山區. */
  lemma FoldedExample()
    ensures Classify(FoldVariant("臺北市中山區")) == ("台北市", "中山區")
  {
    FoldsTaipei();
    var addr := "台北市中山區";
    assert StartsWith(addr, CITY_LIST[0]);
    assert CityOf(addr) == "台北市";
    ReplacePrefix(addr, "台北市");
    var rest := addr[3..];
    assert rest == "中山區";
    assert !MatchesAt(rest, 0, 3);
    assert IsHan('中') && IsHan('山') && IsUnitSuffix('區');
    assert GreedyAt(rest, 0) == Some(2);
    assert rest[0..3] == "中山區";
    assert ScanFrom(rest, 0) == Some("中山區");
  }
}
