/** The country catalog (`countries.json`): a read-only list of countries,
    each with its code, display name and `lnglat` position. */
module Catalog {
  import opened Seqs

  /** A map position `[lng, lat]`. */
  datatype LngLat = LngLat(lng: real, lat: real)

  /** One catalog entry; its identity is `code` (`country_code`). */
  datatype Country = Country(code: string, name: string, lnglat: LngLat)

  /** The codes of a list of countries. */
  function CodesOf(countries: seq<Country>): (codes: set<string>)
    ensures forall c :: c in countries ==> c.code in codes
    ensures forall k :: k in codes ==> exists c :: c in countries && c.code == k
  {
    set c | c in countries :: c.code
  }

  function CountryCode(c: Country): string
  {
    c.code
  }

  /** No two catalog entries share a code. */
  predicate DistinctCodes(countries: seq<Country>)
  {
    DistinctBy(countries, CountryCode)
  }

  /** Whether some country in the list has this code (`Array.prototype.find` by code). */
  predicate Listed(countries: seq<Country>, code: string)
  {
    exists c :: c in countries && c.code == code
  }

  /** With distinct codes, a list has as many countries as codes. */
  lemma {:induction false} DistinctCodesCardinality(countries: seq<Country>)
    requires DistinctCodes(countries)
    ensures |CodesOf(countries)| == |countries|
  {
    if countries != [] {
      var rest := countries[1..];
      var head := countries[0].code;
      assert DistinctCodes(rest) by {
        forall i, j | 0 <= i < j < |rest|
          ensures CountryCode(rest[i]) != CountryCode(rest[j])
        {
          assert rest[i] == countries[i + 1] && rest[j] == countries[j + 1];
        }
      }
      DistinctCodesCardinality(rest);
      CodesOfCons(countries);
      forall i | 0 <= i < |rest|
        ensures rest[i].code != head
      {
        assert rest[i] == countries[i + 1];
        assert CountryCode(countries[0]) != CountryCode(countries[i + 1]);
      }
    }
  }

  /** The codes of a non-empty list: the first one and those of the rest. */
  lemma CodesOfCons(countries: seq<Country>)
    requires countries != []
    ensures CodesOf(countries) == {countries[0].code} + CodesOf(countries[1..])
  {
    var rest := countries[1..];
    forall k | k in CodesOf(countries)
      ensures k in {countries[0].code} + CodesOf(rest)
    {
      var c :| c in countries && c.code == k;
      if c != countries[0] {
        assert c in rest;
      }
    }
  }

  /** The catalog entry of the worked examples. */
  function UnitedStates(): Country
  {
    Country("US", "United States", LngLat(-95.0, 38.0))
  }
}
