/** The rows of the registration batch as the pipeline sees them. A pandas frame is a
    sequence of `Row`s; a missing cell (NaN / None) is `None`. */
module Records {
  import opened Wrappers

  /** A cell of the numeric geographic columns (Postal Code, Legislative District, 2020 Census
      Tract): a number as read, or the text a fill writes into the column. */
  datatype Cell = Num(n: int) | Str(s: string)

  /** The three labelled bins of Year_Category: 'Pre-2015', '2015-2020' and '2021+'. */
  datatype YearCategory = Pre2015 | From2015To2020 | From2021

  /** One row of the batch with every column the pipeline reads or writes. The last five are
      the columns the cleaning stage adds; they read None until it writes them. */
  datatype Row = Row(
    vin: Option<string>,                  // VIN (1-10)
    county: Option<string>,
    city: Option<string>,
    state: Option<string>,
    postalCode: Option<Cell>,
    modelYear: Option<int>,
    make: Option<string>,
    model: Option<string>,
    evType: Option<string>,               // Electric Vehicle Type
    cafvEligibility: Option<string>,      // Clean Alternative Fuel Vehicle (CAFV) Eligibility
    electricRange: Option<real>,
    baseMsrp: Option<int>,
    legislativeDistrict: Option<Cell>,
    dolVehicleId: Option<int>,            // DOL Vehicle ID
    vehicleLocation: Option<string>,      // "POINT (longitude latitude)"
    electricUtility: Option<string>,
    censusTract: Option<Cell>,            // 2020 Census Tract
    evTypeCode: Option<int>,              // EV_Type_Code
    cafvCode: Option<int>,                // CAFV_Code
    modelDecade: Option<int>,             // Model_Decade
    yearCategory: Option<YearCategory>,   // Year_Category
    vinHash: Option<string>               // VIN_Hash
  )

  /** The text columns of a row. */
  datatype TextColumn =
    | Vin | County | City | State | Make | Model | ElectricVehicleType | CafvEligibility
    | VehicleLocation | ElectricUtility

  /** The numeric geographic columns of a row. */
  datatype GeoColumn = PostalCode | LegislativeDistrict | CensusTract

  /** The categorical columns whose missing values become "Unknown", in the order they are filled. */
  const CategoricalColumns: seq<TextColumn> :=
    [County, City, Make, Model, ElectricVehicleType, CafvEligibility, ElectricUtility]

  /** The geographic columns whose missing values become "Unknown", in the order they are filled. */
  const GeoColumns: seq<GeoColumn> := [PostalCode, LegislativeDistrict, CensusTract]

  function TextOf(r: Row, c: TextColumn): Option<string> {
    match c
    case Vin => r.vin
    case County => r.county
    case City => r.city
    case State => r.state
    case Make => r.make
    case Model => r.model
    case ElectricVehicleType => r.evType
    case CafvEligibility => r.cafvEligibility
    case VehicleLocation => r.vehicleLocation
    case ElectricUtility => r.electricUtility
  }

  /** The row with column `c` set to `v`. */
  function WithText(r: Row, c: TextColumn, v: Option<string>): Row {
    match c
    case Vin => r.(vin := v)
    case County => r.(county := v)
    case City => r.(city := v)
    case State => r.(state := v)
    case Make => r.(make := v)
    case Model => r.(model := v)
    case ElectricVehicleType => r.(evType := v)
    case CafvEligibility => r.(cafvEligibility := v)
    case VehicleLocation => r.(vehicleLocation := v)
    case ElectricUtility => r.(electricUtility := v)
  }

  /** The row with every text column cleared: what a change to text columns leaves alone. */
  function NonText(r: Row): Row {
    r.(vin := None, county := None, city := None, state := None, make := None, model := None,
       evType := None, cafvEligibility := None, vehicleLocation := None, electricUtility := None)
  }

  function GeoOf(r: Row, c: GeoColumn): Option<Cell> {
    match c
    case PostalCode => r.postalCode
    case LegislativeDistrict => r.legislativeDistrict
    case CensusTract => r.censusTract
  }

  /** The row with column `c` set to `v`. */
  function WithGeo(r: Row, c: GeoColumn, v: Option<Cell>): Row {
    match c
    case PostalCode => r.(postalCode := v)
    case LegislativeDistrict => r.(legislativeDistrict := v)
    case CensusTract => r.(censusTract := v)
  }

  /** The row with every geographic column cleared. */
  function NonGeo(r: Row): Row {
    r.(postalCode := None, legislativeDistrict := None, censusTract := None)
  }

  /** Setting a text column changes that column and nothing else. */
  lemma WithTextFrame(r: Row, c: TextColumn, v: Option<string>)
    ensures TextOf(WithText(r, c, v), c) == v
    ensures forall d :: d != c ==> TextOf(WithText(r, c, v), d) == TextOf(r, d)
    ensures NonText(WithText(r, c, v)) == NonText(r)
    ensures WithText(r, c, TextOf(r, c)) == r
  {
  }

  /** Setting a geographic column changes that column and nothing else. */
  lemma WithGeoFrame(r: Row, c: GeoColumn, v: Option<Cell>)
    ensures GeoOf(WithGeo(r, c, v), c) == v
    ensures forall d :: d != c ==> GeoOf(WithGeo(r, c, v), d) == GeoOf(r, d)
    ensures NonGeo(WithGeo(r, c, v)) == NonGeo(r)
    ensures WithGeo(r, c, GeoOf(r, c)) == r
  {
  }
}
