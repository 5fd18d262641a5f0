/** The database rows the scripts and the decoder work on (the record classes under app/models), as values,
    and the database itself as one object whose tables the seeding scripts update in place. */
module Tables {
  import opened Wrappers

  /** A row of `countries`. Every column the model reads is kept; a nullable column is an Option.
      Rows are told apart by `iso2` (the unique, non-null `iso_alpha2` column). */
  datatype Country = Country(
    iso2: string,
    iso3: Option<string>,
    isoNumeric: Option<string>,
    name: Option<string>,
    commonName: Option<string>,
    region: Option<string>,
    subregion: Option<string>,
    currencyCode: Option<string>,
    callingCode: Option<string>,
    tld: Option<string>,
    flagEmoji: Option<string>)

  /** A row of `wmi_factories`: a 3-character WMI, the manufacturer name, the linked country
      (the `country_id` relationship) if any, and a free-text region name if any. */
  datatype WmiFactory = WmiFactory(
    id: nat,
    wmi: string,
    name: string,
    country: Option<Country>,
    region: Option<string>)

  /** A row of `factory_logos`. */
  datatype FactoryLogo = FactoryLogo(factoryId: nat, filename: string)

  /** The read-only snapshot the decoder and the generator query. `wmiRegions` is the
      `wmi_regions` table: a code mapped to the country its (non-null) foreign key names. */
  datatype Reference = Reference(
    factories: seq<WmiFactory>,
    wmiRegions: map<string, Country>,
    factoryLogos: seq<FactoryLogo>)

  /** A row of `wmi_region_codes`: a two-character code and the `iso2` of its country. The
      table is unique on the pair (`app/models/wmi.py`), so it is a set of pairs. */
  type Pair = (string, string)

  /** Python truthiness of a nullable string column: present and non-empty. */
  predicate Truthy(s: Option<string>) {
    s.Some? && s.value != ""
  }

  /** The database. `regionCodes` is the `wmi_region_codes` table. */
  class Database {
    var countries: seq<Country>
    var regionCodes: set<Pair>
    var wmiRegions: map<string, Country>
    var factories: seq<WmiFactory>
    var factoryLogos: seq<FactoryLogo>

    constructor (countries: seq<Country>, regionCodes: set<Pair>,
                 wmiRegions: map<string, Country>, factories: seq<WmiFactory>, factoryLogos: seq<FactoryLogo>)
      ensures this.countries == countries && this.regionCodes == regionCodes
      ensures this.wmiRegions == wmiRegions && this.factories == factories
      ensures this.factoryLogos == factoryLogos
    {
      this.countries := countries;
      this.regionCodes := regionCodes;
      this.wmiRegions := wmiRegions;
      this.factories := factories;
      this.factoryLogos := factoryLogos;
    }

    /** What the decoder and the generator see of the database. */
    function Snapshot(): Reference
      reads this
    {
      Reference(factories, wmiRegions, factoryLogos)
    }
  }
}
