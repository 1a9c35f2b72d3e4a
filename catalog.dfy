/** The country table the module loads from its JSON asset. */
module Catalog {
  import Text

  /** One catalog record (`Country` in the English module, `Panstwa` in the
      Polish one). The source's `CountryID` / `KrajID`, which `Start` overwrites
      with the drawn index, is the record's position in the catalog here. */
  datatype Country = Country(
    countryName: string,   // NazwaKraju
    continent: string,     // Kontynent
    capital: string,       // Stolica
    currency: string,      // Waluta
    countryIso: string,    // KrajISO
    countryCode: int)      // KrajKod: the international dial code

  /** `numbers` starts as `Enumerable.Range(0, 36)`: only the first 36 records are drawn. */
  const PoolSize: nat := 36

  /** The catalog entry the white-flag override looks for (France). */
  const FranceIndex: nat := 13

  /** What the module relies on from its asset: every drawable index exists and
      every currency code is long enough for `Currency[2]`. */
  ghost predicate WellFormed(catalog: seq<Country>) {
    PoolSize <= |catalog| && forall i :: 0 <= i < |catalog| ==> |catalog[i].currency| >= 3
  }

  /** True when every element of `ids` indexes into `catalog`. */
  predicate Indexes(catalog: seq<Country>, ids: seq<nat>) {
    forall i :: 0 <= i < |ids| ==> ids[i] < |catalog|
  }

  /** `CountryName.ToUpperInvariant()` of each record named by `ids`. */
  function UpperNames(catalog: seq<Country>, ids: seq<nat>): seq<string>
    requires Indexes(catalog, ids)
  {
    seq(|ids|, i requires 0 <= i < |ids| => Text.Upper(catalog[ids[i]].countryName))
  }

  /** `CountryName.ToUpperInvariant()` of every catalog record. */
  function AllUpperNames(catalog: seq<Country>): seq<string> {
    seq(|catalog|, i requires 0 <= i < |catalog| => Text.Upper(catalog[i].countryName))
  }

  /** `[0, 1, ..., n - 1]`. */
  function Range(n: nat): seq<nat> {
    seq(n, i requires 0 <= i < n => i)
  }
}
