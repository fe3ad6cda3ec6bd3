/** cityDistrictMap: for each classified city, the set of districts seen
    under it. buildCityDistrictMap only ever adds to it. */
module CityMap {
  import opened Records
  import opened Addresses

  type CityDistricts = map<string, set<string>>

  /** `if (!m[city]) m[city] = new Set(); m[city].add(dist)`. */
  function AddPair(m: CityDistricts, city: string, dist: string): CityDistricts {
    m[city := (if city in m then m[city] else {}) + {dist}]
  }

  /** The map after buildCityDistrictMap(data), starting from `m`. */
  function WithPairs(m: CityDistricts, data: seq<Record>): CityDistricts {
    if data == [] then m
    else
      var pair := Classify(data[|data| - 1].address);
      AddPair(WithPairs(m, data[..|data| - 1]), pair.0, pair.1)
  }

  /** One more record adds its own pair to the map built from those before it. */
  lemma WithPairsStep(m: CityDistricts, data: seq<Record>, i: nat)
    requires i < |data|
    ensures WithPairs(m, data[..i + 1])
      == AddPair(WithPairs(m, data[..i]), Classify(data[i].address).0, Classify(data[i].address).1)
  {
    assert data[..i + 1][..i] == data[..i];
  }

  /** `m[city]` exists and holds `dist`. */
  ghost predicate Has(m: CityDistricts, city: string, dist: string) {
    city in m && dist in m[city]
  }

  /** No (city, district) pair that was present is lost. */
  lemma {:induction false} WithPairsKeeps(m: CityDistricts, data: seq<Record>)
    ensures forall c, d :: Has(m, c, d) ==> Has(WithPairs(m, data), c, d)
    ensures m.Keys <= WithPairs(m, data).Keys
  {
    if data != [] {
      WithPairsKeeps(m, data[..|data| - 1]);
    }
  }

  /** Afterwards every record's classified pair is present. */
  lemma {:induction false} WithPairsAdds(m: CityDistricts, data: seq<Record>)
    ensures forall i :: 0 <= i < |data| ==>
      Has(WithPairs(m, data), Classify(data[i].address).0, Classify(data[i].address).1)
  {
    if data != [] {
      var front := data[..|data| - 1];
      WithPairsAdds(m, front);
      var before := WithPairs(m, front);
      forall i | 0 <= i < |data| - 1
        ensures Has(WithPairs(m, data), Classify(data[i].address).0, Classify(data[i].address).1)
      {
        assert data[i] == front[i];
        assert Has(before, Classify(data[i].address).0, Classify(data[i].address).1);
      }
    }
  }

  /** No other key appears: every key is an old key or some record's city. */
  lemma {:induction false} WithPairsOnlyCities(m: CityDistricts, data: seq<Record>)
    ensures forall c :: c in WithPairs(m, data) ==>
      c in m || exists i :: 0 <= i < |data| && Classify(data[i].address).0 == c
  {
    if data != [] {
      var front := data[..|data| - 1];
      WithPairsOnlyCities(m, front);
      forall c | c in WithPairs(m, data)
        ensures c in m || exists i :: 0 <= i < |data| && Classify(data[i].address).0 == c
      {
        if c != Classify(data[|data| - 1].address).0 && c !in m {
          var i :| 0 <= i < |front| && Classify(front[i].address).0 == c;
          assert data[i] == front[i];
        }
      }
    }
  }

  /** No other district appears: every pair is an old pair or some record's
      classified pair. */
  lemma {:induction false} WithPairsOnlyPairs(m: CityDistricts, data: seq<Record>)
    ensures forall c, d :: Has(WithPairs(m, data), c, d) ==>
      Has(m, c, d) || exists i :: 0 <= i < |data| && Classify(data[i].address) == (c, d)
  {
    if data != [] {
      var front := data[..|data| - 1];
      WithPairsOnlyPairs(m, front);
      forall c, d | Has(WithPairs(m, data), c, d)
        ensures Has(m, c, d) || exists i :: 0 <= i < |data| && Classify(data[i].address) == (c, d)
      {
        if Classify(data[|data| - 1].address) != (c, d) && !Has(m, c, d) {
          var i :| 0 <= i < |front| && Classify(front[i].address) == (c, d);
          assert data[i] == front[i];
        }
      }
    }
  }
}
