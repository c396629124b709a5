/** The `EVDataETL` pipeline object: the raw frame, the cleaned frame, the dimension tables and
    the fact table it keeps, and the stage methods that fill them in turn. Each stage is proved
    to leave in its field exactly the table the pure model of that stage defines. */
module Etl {
  import opened Wrappers
  import opened Records
  import opened Frames
  import opened Text
  import opened Dimensions
  import opened Facts
  import Cleaning

  /** A table held in `dimension_tables` or returned by `create_dimensional_model`. */
  datatype Table =
    | LocationTable(location: seq<Keyed<LocationAttrs>>)
    | VehicleTable(vehicle: seq<Keyed<VehicleTuple>>)
    | UtilityTable(utility: seq<Keyed<Option<string>>>)
    | TimeTable(time: seq<Keyed<TimeTuple>>)
    | RegistrationTable(facts: seq<Fact>)

  /** The ValueErrors the pipeline raises. */
  datatype Error =
    | NoRawData          // clean_and_transform before extract_data
    | NoCleanedData      // create_dimensional_model before clean_and_transform
    | BinsNotIncreasing  // pd.cut refuses bins [0, 2015, 2020, current year + 1]
    | MissingColumn      // KeyError: the cleaned frame has no Year_Category column

  const DimLocation := "dim_location"
  const DimVehicle := "dim_vehicle"
  const DimUtility := "dim_utility"
  const DimTime := "dim_time"
  const FactRegistration := "fact_vehicle_registration"

  /** The five table names are different keys. */
  lemma NamesDistinct()
    ensures DimLocation != DimVehicle && DimLocation != DimUtility && DimLocation != DimTime
    ensures DimVehicle != DimUtility && DimVehicle != DimTime && DimUtility != DimTime
    ensures FactRegistration !in {DimLocation, DimVehicle, DimUtility, DimTime}
  {
    assert DimLocation[4] == 'l' && DimVehicle[4] == 'v' && DimUtility[4] == 'u' && DimTime[4] == 't';
    assert FactRegistration[0] == 'f' && DimLocation[0] == 'd';
  }

  /** The four dimensions as they sit in `dimension_tables`, when all four are there. */
  predicate HasDims(tables: map<string, Table>) {
    && DimLocation in tables && tables[DimLocation].LocationTable?
    && DimVehicle in tables && tables[DimVehicle].VehicleTable?
    && DimUtility in tables && tables[DimUtility].UtilityTable?
    && DimTime in tables && tables[DimTime].TimeTable?
  }

  function DimsIn(tables: map<string, Table>): Dims
    requires HasDims(tables)
  {
    Dims(tables[DimLocation].location, tables[DimVehicle].vehicle,
         tables[DimUtility].utility, tables[DimTime].time)
  }

  /** The dimension tables a frame gives, stored under their names over `tables`. */
  function WithDims(tables: map<string, Table>, dims: Dims): map<string, Table> {
    tables[DimLocation := LocationTable(dims.loc)][DimVehicle := VehicleTable(dims.veh)]
          [DimUtility := UtilityTable(dims.util)][DimTime := TimeTable(dims.time)]
  }

  /** Storing the four dimensions makes them the ones `dimension_tables` holds. */
  lemma StoredDims(tables: map<string, Table>, dims: Dims)
    ensures HasDims(WithDims(tables, dims)) && DimsIn(WithDims(tables, dims)) == dims
  {
    NamesDistinct();
  }

  /** The coordinate pass of `_create_location_dimension`: Latitude and Longitude start unset
      for every location row, then each row's Vehicle Location is parsed in turn. */
  method ParseLocations(locations: seq<LocationTuple>, parse: Option<string> -> Coords) returns (parsed: seq<Coords>)
    ensures |parsed| == |locations|
    ensures forall i :: 0 <= i < |locations| ==> parsed[i] == parse(locations[i].vehicleLocation)
  {
    var coords := new Coords[|locations|](_ => Coords(None, None));
    var idx := 0;
    while idx < |locations|
      invariant 0 <= idx <= |locations| == coords.Length
      invariant forall i :: 0 <= i < idx ==> coords[i] == parse(locations[i].vehicleLocation)
      modifies coords
    {
      // the try block of one row
      coords[idx] := parse(locations[idx].vehicleLocation);
      idx := idx + 1;
    }
    parsed := coords[..];
  }

  class EVDataETL {
    var dataUrl: string
    var rawData: Option<seq<Row>>
    var cleanedData: Option<seq<Row>>
    var dimensionTables: map<string, Table>
    var factTable: Option<seq<Fact>>
    /** The cleaned frame has the Year_Category and VIN_Hash columns: `_create_derived_fields`
        ran to its end. A frame left by a failed `pd.cut` lacks both. */
    var derivedColumns: bool

    /** A pipeline for the dataset at `dataUrl`, with nothing extracted, cleaned or built. */
    constructor(dataUrl: string)
      ensures this.dataUrl == dataUrl
      ensures rawData == None && cleanedData == None && dimensionTables == map[] && factTable == None
      ensures !derivedColumns
    {
      this.dataUrl := dataUrl;
      rawData := None;
      cleanedData := None;
      dimensionTables := map[];
      factTable := None;
      derivedColumns := false;
    }

    /** `extract_data`: the frame read from the downloaded file becomes the raw data. */
    method ExtractData(downloaded: seq<Row>) returns (r: seq<Row>)
      modifies this
      ensures r == downloaded && rawData == Some(downloaded)
      ensures dataUrl == old(dataUrl) && cleanedData == old(cleanedData)
      ensures dimensionTables == old(dimensionTables) && factTable == old(factTable)
      ensures derivedColumns == old(derivedColumns)
    {
      rawData := Some(downloaded);
      r := downloaded;
    }

    /** `clean_and_transform`: copies the raw frame and runs the three cleaning stages on the
        copy. Without raw data nothing changes; when `pd.cut` refuses the bins the partly
        cleaned copy is left behind; otherwise the cleaned frame is kept and returned. */
    method CleanAndTransform(currentYear: int, md5Hex: string -> string) returns (r: Result<seq<Row>, Error>)
      modifies this
      ensures old(rawData).None? ==> r == Err(NoRawData) && cleanedData == old(cleanedData)
      ensures old(rawData).None? ==> derivedColumns == old(derivedColumns)
      ensures old(rawData).Some? ==> derivedColumns == Cleaning.BinsIncrease(currentYear)
      ensures old(rawData).Some? && !Cleaning.BinsIncrease(currentYear) ==>
                r == Err(BinsNotIncreasing) && cleanedData == Some(Cleaning.PartiallyCleaned(old(rawData).value))
      ensures old(rawData).Some? && Cleaning.BinsIncrease(currentYear) ==>
                && cleanedData == Some(Cleaning.Cleaned(old(rawData).value, currentYear, md5Hex))
                && r == Ok(cleanedData.value)
      ensures dataUrl == old(dataUrl) && rawData == old(rawData)
      ensures dimensionTables == old(dimensionTables) && factTable == old(factTable)
    {
      if rawData.None? {
        return Err(NoRawData);
      }
      cleanedData := rawData;
      derivedColumns := false;
      HandleMissingValues();
      EncodeCategoricalVariables();
      var binned := CreateDerivedFields(currentYear, md5Hex);
      if !binned {
        return Err(BinsNotIncreasing);
      }
      r := Ok(cleanedData.value);
    }

    /** `_handle_missing_values`: fills the categorical columns one at a time (only those with
        a missing value), then Electric Range with its median and Base MSRP with 0, then the
        geographic columns one at a time. */
    method HandleMissingValues()
      requires cleanedData.Some?
      modifies this
      ensures cleanedData == Some(Cleaning.HandleMissingValues(old(cleanedData.value)))
      ensures dataUrl == old(dataUrl) && rawData == old(rawData) && derivedColumns == old(derivedColumns)
      ensures dimensionTables == old(dimensionTables) && factTable == old(factTable)
    {
      var data := cleanedData.value;
      var texts := FillCategoricalColumns(data);
      var fill := Cleaning.RangeFill(texts);
      var numeric := Cleaning.FillMsrpColumn(Cleaning.FillRangeColumn(texts, fill));
      var filled := FillGeoColumns(numeric);
      cleanedData := Some(filled);
      Cleaning.FillsInOrder(data);
    }

    /** The first loop of `_handle_missing_values`: each categorical column in turn, filled
        only when it has a missing value. */
    static method FillCategoricalColumns(data: seq<Row>) returns (r: seq<Row>)
      ensures r == Cleaning.FillTextsFrame(data, CategoricalColumns[..|CategoricalColumns|])
    {
      r := data;
      Cleaning.FillNothing(data);
      var k := 0;
      while k < |CategoricalColumns|
        invariant 0 <= k <= |CategoricalColumns|
        invariant r == Cleaning.FillTextsFrame(data, CategoricalColumns[..k])
      {
        var c := CategoricalColumns[k];
        Cleaning.FillTextsStep(data, CategoricalColumns, k);
        if Cleaning.MissingTexts(r, c) > 0 {
          r := Cleaning.FillTextColumn(r, c);
        }
        k := k + 1;
      }
    }

    /** The last loop of `_handle_missing_values`: each geographic column in turn, filled
        only when it has a missing value. */
    static method FillGeoColumns(data: seq<Row>) returns (r: seq<Row>)
      ensures r == Cleaning.FillGeosFrame(data, GeoColumns[..|GeoColumns|])
    {
      r := data;
      Cleaning.FillNothing(data);
      var k := 0;
      while k < |GeoColumns|
        invariant 0 <= k <= |GeoColumns|
        invariant r == Cleaning.FillGeosFrame(data, GeoColumns[..k])
      {
        var g := GeoColumns[k];
        Cleaning.FillGeosStep(data, GeoColumns, k);
        if Cleaning.MissingGeos(r, g) > 0 {
          r := Cleaning.FillGeoColumn(r, g);
        }
        k := k + 1;
      }
    }

    /** `_encode_categorical_variables`: writes EV_Type_Code, then CAFV_Code. */
    method EncodeCategoricalVariables()
      requires cleanedData.Some?
      modifies this
      ensures cleanedData == Some(Cleaning.EncodeCategoricalVariables(old(cleanedData.value)))
      ensures dataUrl == old(dataUrl) && rawData == old(rawData) && derivedColumns == old(derivedColumns)
      ensures dimensionTables == old(dimensionTables) && factTable == old(factTable)
    {
      var rows := cleanedData.value;
      cleanedData := Some(seq(|rows|, j requires 0 <= j < |rows| =>
                                rows[j].(evTypeCode := Some(Cleaning.EvTypeCode(rows[j].evType)))));
      var coded := cleanedData.value;
      cleanedData := Some(seq(|coded|, j requires 0 <= j < |coded| =>
                                coded[j].(cafvCode := Some(Cleaning.CafvCode(coded[j].cafvEligibility)))));
      assert cleanedData.value == Cleaning.EncodeCategoricalVariables(rows);
    }

    /** `_create_derived_fields`: writes Model_Decade, then Year_Category, then VIN_Hash.
        Returns false, with only Model_Decade written, when `pd.cut` refuses the bins. */
    method CreateDerivedFields(currentYear: int, md5Hex: string -> string) returns (binned: bool)
      requires cleanedData.Some?
      modifies this
      ensures binned == Cleaning.BinsIncrease(currentYear) && derivedColumns == binned
      ensures !binned ==> cleanedData == Some(Cleaning.AddModelDecade(old(cleanedData.value)))
      ensures binned ==> cleanedData == Some(Cleaning.AddVinHash(Cleaning.AddYearCategory(
                                               Cleaning.AddModelDecade(old(cleanedData.value)), currentYear), md5Hex))
      ensures dataUrl == old(dataUrl) && rawData == old(rawData)
      ensures dimensionTables == old(dimensionTables) && factTable == old(factTable)
    {
      cleanedData := Some(Cleaning.AddModelDecade(cleanedData.value));
      if !Cleaning.BinsIncrease(currentYear) {
        derivedColumns := false;
        return false;
      }
      cleanedData := Some(Cleaning.AddYearCategory(cleanedData.value, currentYear));
      cleanedData := Some(Cleaning.AddVinHash(cleanedData.value, md5Hex));
      derivedColumns := true;
      binned := true;
    }

    /** `create_dimensional_model`: builds the four dimensions and the fact table from the
        cleaned frame and returns them by name. Without cleaned data nothing changes. On a frame
        without Year_Category the time dimension raises KeyError after the other three are stored. */
    method CreateDimensionalModel(toFloat: string -> Option<real>) returns (r: Result<map<string, Table>, Error>)
      modifies this
      ensures old(cleanedData).None? ==> r == Err(NoCleanedData) && unchanged(this)
      ensures old(cleanedData).Some? && !derivedColumns ==>
                var dims := DimsOf(old(cleanedData).value, PointParser(toFloat));
                && r == Err(MissingColumn) && factTable == old(factTable)
                && dimensionTables == old(dimensionTables)[DimLocation := LocationTable(dims.loc)]
                                        [DimVehicle := VehicleTable(dims.veh)][DimUtility := UtilityTable(dims.util)]
      ensures old(cleanedData).Some? && derivedColumns ==>
                var rows := old(cleanedData).value;
                && dimensionTables == WithDims(old(dimensionTables), DimsOf(rows, PointParser(toFloat)))
                && factTable == Some(BuildFacts(rows, PointParser(toFloat)))
                && r == Ok(dimensionTables[FactRegistration := RegistrationTable(factTable.value)])
      ensures dataUrl == old(dataUrl) && rawData == old(rawData) && cleanedData == old(cleanedData)
      ensures derivedColumns == old(derivedColumns)
    {
      if cleanedData.None? {
        return Err(NoCleanedData);
      }
      CreateLocationDimension(toFloat);
      CreateVehicleDimension();
      CreateUtilityDimension();
      var found := CreateTimeDimension();
      if !found {
        return Err(MissingColumn);
      }
      ghost var dims := DimsOf(cleanedData.value, PointParser(toFloat));
      assert dimensionTables == WithDims(old(dimensionTables), dims);
      StoredDims(old(dimensionTables), dims);
      CreateFactTable();
      r := Ok(dimensionTables[FactRegistration := RegistrationTable(factTable.value)]);
    }

    /** `_create_location_dimension`: the distinct seven-column location tuples in first-seen
        order; a pass over them parses Vehicle Location into Latitude and Longitude (both start
        unset), then the keys 1..n are added and the table is stored as dim_location. */
    method CreateLocationDimension(toFloat: string -> Option<real>)
      requires cleanedData.Some?
      modifies this
      ensures dataUrl == old(dataUrl) && rawData == old(rawData)
      ensures cleanedData == old(cleanedData) && factTable == old(factTable) && derivedColumns == old(derivedColumns)
      ensures dimensionTables == old(dimensionTables)[DimLocation := LocationTable(LocationDimension(cleanedData.value, PointParser(toFloat)))]
    {
      var locations := Distinct(Column(cleanedData.value, LocationTupleOf));
      var parsed := ParseLocations(locations, PointParser(toFloat));
      var location := seq(|locations|, i requires 0 <= i < |locations| =>
                            Keyed(i + 1, LocationAttrs(locations[i].place, parsed[i])));
      LocationDimensionFrom(cleanedData.value, PointParser(toFloat), location, parsed);
      dimensionTables := dimensionTables[DimLocation := LocationTable(location)];
    }

    /** `_create_vehicle_dimension`: the distinct vehicle tuples, keyed 1..n, as dim_vehicle. */
    method CreateVehicleDimension()
      requires cleanedData.Some?
      modifies this
      ensures dataUrl == old(dataUrl) && rawData == old(rawData)
      ensures cleanedData == old(cleanedData) && factTable == old(factTable) && derivedColumns == old(derivedColumns)
      ensures dimensionTables == old(dimensionTables)[DimVehicle := VehicleTable(VehicleDimension(cleanedData.value))]
    {
      var vehicle := Number(Distinct(Column(cleanedData.value, VehicleTupleOf)));
      dimensionTables := dimensionTables[DimVehicle := VehicleTable(vehicle)];
    }

    /** `_create_utility_dimension`: the distinct Electric Utility values, keyed 1..n, as dim_utility. */
    method CreateUtilityDimension()
      requires cleanedData.Some?
      modifies this
      ensures dataUrl == old(dataUrl) && rawData == old(rawData)
      ensures cleanedData == old(cleanedData) && factTable == old(factTable) && derivedColumns == old(derivedColumns)
      ensures dimensionTables == old(dimensionTables)[DimUtility := UtilityTable(UtilityDimension(cleanedData.value))]
    {
      var utility := Number(Distinct(Column(cleanedData.value, UtilityOf)));
      dimensionTables := dimensionTables[DimUtility := UtilityTable(utility)];
    }

    /** `_create_time_dimension`: the distinct time tuples, keyed 1..n, as dim_time. Selecting
        the time columns raises KeyError, storing nothing, when Year_Category is absent. */
    method CreateTimeDimension() returns (found: bool)
      requires cleanedData.Some?
      modifies this
      ensures found == derivedColumns
      ensures dataUrl == old(dataUrl) && rawData == old(rawData)
      ensures cleanedData == old(cleanedData) && factTable == old(factTable) && derivedColumns == old(derivedColumns)
      ensures found ==> dimensionTables == old(dimensionTables)[DimTime := TimeTable(TimeDimension(cleanedData.value))]
      ensures !found ==> dimensionTables == old(dimensionTables)
    {
      if !derivedColumns {
        return false;
      }
      found := true;
      var time := Number(Distinct(Column(cleanedData.value, TimeTupleOf)));
      dimensionTables := dimensionTables[DimTime := TimeTable(time)];
    }

    /** `_create_fact_table`: the cleaned frame merged with the four stored dimensions in turn,
        projected onto the keys and measures and numbered with registration_id. */
    method CreateFactTable()
      requires cleanedData.Some? && HasDims(dimensionTables)
      modifies this
      ensures dataUrl == old(dataUrl) && rawData == old(rawData)
      ensures cleanedData == old(cleanedData) && dimensionTables == old(dimensionTables)
      ensures derivedColumns == old(derivedColumns)
      ensures factTable == Some(FactTable(cleanedData.value, DimsIn(dimensionTables)))
    {
      var dims := DimsIn(dimensionTables);
      var merged := JoinLocation(Column(cleanedData.value, Start), dims.loc);
      merged := JoinVehicle(merged, dims.veh);
      merged := JoinUtility(merged, dims.util);
      merged := JoinTime(merged, dims.time);
      factTable := Some(Register(merged));
    }
  }
}
