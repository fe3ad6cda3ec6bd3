/** searchData's filter and the autocomplete suggestion list. Matching is
    case-sensitive substring containment against the raw fields; the
    classified city and district are not consulted. */
module Search {
  import opened JsText
  import opened Seqs
  import opened Records

  /** The value of the city and district selectors that disables them. */
  const ALL := "全部"

  /** The searchData test for one record; `kw` is the trimmed keyword. */
  predicate Passes(d: Record, city: string, dist: string, kw: string) {
    && (city == ALL || Contains(d.address, city))
    && (dist == ALL || Contains(d.address, dist))
    && (kw == "" || Contains(d.name, kw) || Contains(d.address, kw) || Contains(d.phone, kw) || Contains(d.team, kw))
  }

  function Criterion(city: string, dist: string, kw: string): Record -> bool {
    d => Passes(d, city, dist, kw)
  }

  /** `allData.filter(...)` with `kw = keyword.trim()`. */
  function SearchResult(data: seq<Record>, city: string, dist: string, keyword: string): seq<Record> {
    Keep(data, Criterion(city, dist, Trim(keyword)))
  }

  /** The result is an order-preserving subsequence of the data. */
  lemma SearchIsSubsequence(data: seq<Record>, city: string, dist: string, keyword: string)
    ensures IsSubsequence(SearchResult(data, city, dist, keyword), data)
  {
    KeepIsSubsequence(data, Criterion(city, dist, Trim(keyword)));
  }

  /** A record is in the result exactly when it is in the data and passes
      every active criterion. */
  lemma SearchKeepsExactlyPassing(data: seq<Record>, city: string, dist: string, keyword: string, d: Record)
    ensures d in SearchResult(data, city, dist, keyword) <==> d in data && Passes(d, city, dist, Trim(keyword))
  {
    KeepMembership(data, Criterion(city, dist, Trim(keyword)), d);
  }

  /** Every kept record's address contains the selected city and district,
      and one of its fields contains the trimmed keyword. */
  lemma SearchKeptPass(data: seq<Record>, city: string, dist: string, keyword: string)
    ensures var r := SearchResult(data, city, dist, keyword);
      forall k :: 0 <= k < |r| ==>
        && (city != ALL ==> Contains(r[k].address, city))
        && (dist != ALL ==> Contains(r[k].address, dist))
        && (!IsBlank(keyword) ==>
              Contains(r[k].name, Trim(keyword)) || Contains(r[k].address, Trim(keyword))
              || Contains(r[k].phone, Trim(keyword)) || Contains(r[k].team, Trim(keyword)))
  {
    TrimSpec(keyword);
    KeepPasses(data, Criterion(city, dist, Trim(keyword)));
  }

  /** Searching two runs of data searches each run in turn. */
  lemma SearchConcat(a: seq<Record>, b: seq<Record>, city: string, dist: string, keyword: string)
    ensures SearchResult(a + b, city, dist, keyword) == SearchResult(a, city, dist, keyword) + SearchResult(b, city, dist, keyword)
  {
    KeepConcat(a, b, Criterion(city, dist, Trim(keyword)));
  }

  /** With both selectors on 全部 and a blank keyword the result is all data. */
  lemma SearchEverything(data: seq<Record>, keyword: string)
    requires IsBlank(keyword)
    ensures SearchResult(data, ALL, ALL, keyword) == data
  {
    TrimSpec(keyword);
    KeepAll(data, Criterion(ALL, ALL, Trim(keyword)));
  }

  /** `allData.map((d) => d.名稱)`. */
  function Names(data: seq<Record>): (ns: seq<string>)
    ensures |ns| == |data|
  {
    seq(|data|, i requires 0 <= i < |data| => data[i].name)
  }

  /** `(n) => n && n.includes(kw)`. */
  function NameMatcher(kw: string): string -> bool {
    n => n != "" && Contains(n, kw)
  }

  /** The names containing the keyword, with repeats, in data order. */
  function MatchingNames(data: seq<Record>, kw: string): seq<string> {
    Keep(Names(data), NameMatcher(kw))
  }

  /** The autocomplete list for the typed input: none for blank input,
      else `[...new Set(matches)].slice(0, 8)`. */
  function Suggestions(data: seq<Record>, input: string): seq<string> {
    var kw := Trim(input);
    if kw == "" then [] else Slice(Dedup(MatchingNames(data, kw)), 0, 8)
  }

  /** Blank input offers nothing. */
  lemma SuggestionsBlank(data: seq<Record>, input: string)
    requires IsBlank(input)
    ensures Suggestions(data, input) == []
  {
    TrimSpec(input);
  }

  /** For non-blank input the list is the first (at most) eight distinct
      matching names. */
  lemma SuggestionsTakeDistinct(data: seq<Record>, input: string)
    requires Trim(input) != ""
    ensures var r := Suggestions(data, input); var all := Dedup(MatchingNames(data, Trim(input)));
      && |r| == (if |all| < 8 then |all| else 8)
      && r == all[..|r|]
  {
  }

  /** At most eight names, none twice. */
  lemma SuggestionsDistinct(data: seq<Record>, input: string)
    ensures |Suggestions(data, input)| <= 8 && Distinct(Suggestions(data, input))
  {
    if Trim(input) != "" {
      SuggestionsTakeDistinct(data, input);
    }
  }

  /** Each suggestion is the non-empty name of some record and contains the
      trimmed input. */
  lemma SuggestionsMatch(data: seq<Record>, input: string)
    ensures var r := Suggestions(data, input);
      forall k :: 0 <= k < |r| ==>
        r[k] != "" && Contains(r[k], Trim(input)) && exists i :: 0 <= i < |data| && data[i].name == r[k]
  {
    var kw := Trim(input);
    if kw != "" {
      var matches := MatchingNames(data, kw);
      var r := Suggestions(data, input);
      SuggestionsTakeDistinct(data, input);
      forall k | 0 <= k < |r|
        ensures r[k] != "" && Contains(r[k], kw) && exists i :: 0 <= i < |data| && data[i].name == r[k]
      {
        assert r[k] == Dedup(matches)[k];
        assert r[k] in matches;
        KeepMembership(Names(data), NameMatcher(kw), r[k]);
      }
    }
  }

  /** The suggestions come in the order the names first appear among the matches. */
  lemma SuggestionsOrder(data: seq<Record>, input: string)
    ensures var r := Suggestions(data, input); var matches := MatchingNames(data, Trim(input));
      forall i, j :: 0 <= i < j < |r| ==> r[i] in matches && r[j] in matches && FirstIndex(matches, r[i]) < FirstIndex(matches, r[j])
  {
    var kw := Trim(input);
    if kw != "" {
      var matches := MatchingNames(data, kw);
      var all := Dedup(matches);
      var r := Suggestions(data, input);
      SuggestionsTakeDistinct(data, input);
      DedupOrder(matches);
      forall i, j | 0 <= i < j < |r|
        ensures r[i] in matches && r[j] in matches && FirstIndex(matches, r[i]) < FirstIndex(matches, r[j])
      {
        assert r[i] == all[i] && r[j] == all[j];
      }
    }
  }

  /** Fewer than eight suggestions means every matching name is offered. */
  lemma SuggestionsComplete(data: seq<Record>, input: string, i: nat)
    requires !IsBlank(input) && i < |data|
    requires data[i].name != "" && Contains(data[i].name, Trim(input))
    requires |Suggestions(data, input)| < 8
    ensures data[i].name in Suggestions(data, input)
  {
    TrimSpec(input);
    var kw := Trim(input);
    var matches := MatchingNames(data, kw);
    assert Names(data)[i] == data[i].name;
    KeepMembership(Names(data), NameMatcher(kw), data[i].name);
    DedupMember(matches, data[i].name);
  }
}
