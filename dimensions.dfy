/** The four dimension tables as functions of the cleaned frame: each projects the frame onto
    its columns, drops duplicate tuples (first occurrence wins) and numbers the rows 1..n. */
module Dimensions {
  import opened Wrappers
  import opened Records
  import opened Frames
  import opened Text
  import Cleaning

  /** The six location columns the fact table joins on: County, City, State, Postal Code,
      Legislative District, 2020 Census Tract. */
  datatype Place = Place(
    county: Option<string>, city: Option<string>, state: Option<string>,
    postalCode: Option<Cell>, legislativeDistrict: Option<Cell>, censusTract: Option<Cell>)

  /** The seven columns the Location dimension deduplicates on: the six above and Vehicle Location. */
  datatype LocationTuple = LocationTuple(place: Place, vehicleLocation: Option<string>)

  /** Latitude and Longitude of a location row; None where the parse left them unset. */
  datatype Coords = Coords(latitude: Option<real>, longitude: Option<real>)

  /** A Location dimension row without its key: the six join columns and the coordinates
      (Vehicle Location itself is not kept). */
  datatype LocationAttrs = LocationAttrs(place: Place, coords: Coords)

  /** The Vehicle dimension columns: Make, Model, Electric Vehicle Type, CAFV Eligibility,
      EV_Type_Code, CAFV_Code. */
  datatype VehicleTuple = VehicleTuple(
    make: Option<string>, model: Option<string>, evType: Option<string>,
    cafvEligibility: Option<string>, evTypeCode: Option<int>, cafvCode: Option<int>)

  /** The Time dimension columns: Model Year, Model_Decade, Year_Category. */
  datatype TimeTuple = TimeTuple(modelYear: Option<int>, modelDecade: Option<int>, yearCategory: Option<YearCategory>)

  function PlaceOf(r: Row): Place {
    Place(r.county, r.city, r.state, r.postalCode, r.legislativeDistrict, r.censusTract)
  }

  function LocationTupleOf(r: Row): LocationTuple {
    LocationTuple(PlaceOf(r), r.vehicleLocation)
  }

  function VehicleTupleOf(r: Row): VehicleTuple {
    VehicleTuple(r.make, r.model, r.evType, r.cafvEligibility, r.evTypeCode, r.cafvCode)
  }

  function UtilityOf(r: Row): Option<string> {
    r.electricUtility
  }

  function TimeTupleOf(r: Row): TimeTuple {
    TimeTuple(r.modelYear, r.modelDecade, r.yearCategory)
  }

  function ModelYearOf(r: Row): Option<int> {
    r.modelYear
  }

  /** `frame[cols]`: every row of the frame projected by `f`, in row order. */
  function Column<T>(rows: seq<Row>, f: Row -> T): (c: seq<T>)
    ensures |c| == |rows| && forall j :: 0 <= j < |rows| ==> c[j] == f(rows[j])
  {
    seq(|rows|, j requires 0 <= j < |rows| => f(rows[j]))
  }

  // ---------------------------------------------------------------------------------------
  // Coordinate parse of the Location dimension

  const PointPrefix := "POINT ("

  /** The whitespace-separated tokens of a cell once "POINT (" and ")" are deleted from it. */
  function PointTokens(cell: string): seq<string> {
    Split(RemoveAll(RemoveAll(cell, PointPrefix), ")"))
  }

  /** Latitude and Longitude parsed from a Vehicle Location cell. `toFloat` stands for Python's
      `float()`, None where it raises. A missing or "Unknown" cell gives nothing. Otherwise
      "POINT (" and ")" are deleted and the rest split on whitespace; only exactly two tokens
      are used, longitude first. A token `float()` rejects ends the attempt: a bad longitude
      leaves both unset, a bad latitude leaves the longitude already set. */
  function Coordinates(v: Option<string>, toFloat: string -> Option<real>): (c: Coords)
    ensures v.None? || v == Some("Unknown") ==> c == Coords(None, None)
    ensures c.latitude.Some? ==> c.longitude.Some?
    ensures v.Some? && v.value != "Unknown" && |PointTokens(v.value)| != 2 ==> c == Coords(None, None)
    ensures v.Some? && v.value != "Unknown" && |PointTokens(v.value)| == 2 ==>
              && c.longitude == toFloat(PointTokens(v.value)[0])
              && c.latitude == (if c.longitude.Some? then toFloat(PointTokens(v.value)[1]) else None)
  {
    if v.None? || v.value == "Unknown" then Coords(None, None)
    else
      var tokens := PointTokens(v.value);
      if |tokens| != 2 then Coords(None, None)
      else
        var longitude := toFloat(tokens[0]);
        if longitude.None? then Coords(None, None)
        else Coords(toFloat(tokens[1]), longitude)
  }

  /** Deleting a single character distributes over concatenation. */
  lemma {:induction false} RemoveAllCharAppend(a: string, b: string, c: char)
    ensures RemoveAll(a + b, [c]) == RemoveAll(a, [c]) + RemoveAll(b, [c])
    decreases |a|
  {
    if a == [] {
      assert a + b == b;
    } else {
      assert (a + b)[1..] == a[1..] + b;
      assert (a + b)[..1] == a[..1];
      RemoveAllCharAppend(a[1..], b, c);
    }
  }

  /** Deleting "POINT (" and then ")" from "POINT (" + body + ")" gives back the body when
      neither 'P' nor ')' occurs in it. */
  lemma StripPoint(body: string)
    requires 'P' !in body && ')' !in body
    ensures RemoveAll(RemoveAll(PointPrefix + body + ")", PointPrefix), ")") == body
  {
    var cell := PointPrefix + body + ")";
    assert cell[..|PointPrefix|] == PointPrefix && cell[|PointPrefix|..] == body + ")";
    RemoveAllAbsent(body + ")", PointPrefix);
    RemoveAllCharAppend(body, ")", ')');
    RemoveAllAbsent(body, ")");
    assert RemoveAll(")", ")") == "";
    assert body + "" == body;
  }

  /** A well-formed "POINT (longitude latitude)" cell parses to its two numbers, as `toFloat`
      reads them: the round trip of the format the dataset uses. */
  lemma PointRoundTrip(longitude: string, latitude: string, toFloat: string -> Option<real>)
    requires IsWord(longitude) && IsWord(latitude)
    requires 'P' !in longitude && 'P' !in latitude && ')' !in longitude && ')' !in latitude
    ensures Coordinates(Some(PointPrefix + longitude + " " + latitude + ")"), toFloat)
            == if toFloat(longitude).None? then Coords(None, None)
               else Coords(toFloat(latitude), toFloat(longitude))
  {
    var body := longitude + " " + latitude;
    var cell := PointPrefix + body + ")";
    assert PointPrefix + longitude + " " + latitude + ")" == cell;
    assert cell != "Unknown" by {
      assert cell[0] == 'P' && "Unknown"[0] == 'U';
    }
    assert JoinWords([longitude, latitude]) == body by {
      assert [longitude, latitude][1..] == [latitude];
    }
    StripPoint(body);
    SplitJoinWords([longitude, latitude]);
  }

  // ---------------------------------------------------------------------------------------
  // The four dimensions

  /** The coordinate parser the pipeline uses: `Coordinates` with Python's `float()`. */
  function PointParser(toFloat: string -> Option<real>): Option<string> -> Coords {
    v => Coordinates(v, toFloat)
  }

  /** The Location row built from one distinct seven-column tuple, `parse` reading the
      coordinates out of its Vehicle Location. */
  function Locate(t: LocationTuple, parse: Option<string> -> Coords): LocationAttrs {
    LocationAttrs(t.place, parse(t.vehicleLocation))
  }

  /** dim_location: distinct (six columns, Vehicle Location) tuples in first-seen order, keyed
      1..n, each carrying its six columns and parsed coordinates. */
  function LocationDimension(rows: seq<Row>, parse: Option<string> -> Coords): seq<Keyed<LocationAttrs>> {
    var keyed := DedupAndKey(Column(rows, LocationTupleOf));
    seq(|keyed|, i requires 0 <= i < |keyed| => Keyed(keyed[i].id, Locate(keyed[i].attrs, parse)))
  }

  /** The Location dimension is the distinct location tuples numbered 1..n, each with the
      coordinates parsed from its own Vehicle Location. */
  lemma LocationDimensionFrom(rows: seq<Row>, parse: Option<string> -> Coords,
                              location: seq<Keyed<LocationAttrs>>, coords: seq<Coords>)
    requires |coords| == |location| == |Distinct(Column(rows, LocationTupleOf))|
    requires forall i :: 0 <= i < |coords| ==>
               coords[i] == parse(Distinct(Column(rows, LocationTupleOf))[i].vehicleLocation)
    requires forall i :: 0 <= i < |location| ==>
               location[i] == Keyed(i + 1, LocationAttrs(Distinct(Column(rows, LocationTupleOf))[i].place, coords[i]))
    ensures location == LocationDimension(rows, parse)
  {
  }

  /** dim_vehicle: distinct vehicle tuples in first-seen order, keyed 1..n. */
  function VehicleDimension(rows: seq<Row>): seq<Keyed<VehicleTuple>> {
    DedupAndKey(Column(rows, VehicleTupleOf))
  }

  /** dim_utility: distinct Electric Utility values in first-seen order, keyed 1..n. */
  function UtilityDimension(rows: seq<Row>): seq<Keyed<Option<string>>> {
    DedupAndKey(Column(rows, UtilityOf))
  }

  /** dim_time: distinct (Model Year, Model_Decade, Year_Category) tuples in first-seen order, keyed 1..n. */
  function TimeDimension(rows: seq<Row>): seq<Keyed<TimeTuple>> {
    DedupAndKey(Column(rows, TimeTupleOf))
  }

  /** The Location dimension has one row per distinct seven-column tuple, keyed 1..n in order of
      first occurrence; every row's place is listed under the key of its tuple. */
  lemma LocationDimensionProperties(rows: seq<Row>, parse: Option<string> -> Coords)
    ensures |LocationDimension(rows, parse)| <= |rows|
    ensures forall i :: 0 <= i < |LocationDimension(rows, parse)| ==> LocationDimension(rows, parse)[i].id == i + 1
    ensures forall j :: 0 <= j < |rows| ==>
              var k := SurrogateKey(Column(rows, LocationTupleOf), LocationTupleOf(rows[j]));
              && 1 <= k <= |LocationDimension(rows, parse)|
              && LocationDimension(rows, parse)[k - 1].attrs
                 == LocationAttrs(PlaceOf(rows[j]), parse(rows[j].vehicleLocation))
  {
    var col := Column(rows, LocationTupleOf);
    forall j | 0 <= j < |rows|
      ensures var k := SurrogateKey(col, LocationTupleOf(rows[j]));
              LocationDimension(rows, parse)[k - 1].attrs == LocationAttrs(PlaceOf(rows[j]), parse(rows[j].vehicleLocation))
    {
      assert col[j] == LocationTupleOf(rows[j]);
    }
  }

  /** Two sequences whose elements are equal at exactly the same pairs of positions have the
      same number of distinct elements. */
  lemma {:induction false} DistinctSameShape<A, B>(s: seq<A>, t: seq<B>)
    requires |s| == |t|
    requires forall i, j :: 0 <= i < |s| && 0 <= j < |s| ==> (s[i] == s[j] <==> t[i] == t[j])
    ensures |Distinct(s)| == |Distinct(t)|
    decreases |s|
  {
    if s != [] {
      var n := |s| - 1;
      var ps, pt := s[..n], t[..n];
      DistinctSameShape(ps, pt);
      var ds, dt := Distinct(ps), Distinct(pt);
      if s[n] in ds {
        var i :| 0 <= i < n && ps[i] == s[n];
        assert t[i] == t[n];
        assert pt[i] in dt;
      }
    }
  }

  /** When Model_Decade and Year_Category are the ones derived from Model Year (as cleaning
      leaves them), the Time dimension has exactly one row per distinct Model Year. */
  lemma TimeDimensionSize(rows: seq<Row>, currentYear: int)
    requires Cleaning.BinsIncrease(currentYear)
    requires forall j :: 0 <= j < |rows| ==>
               && rows[j].modelDecade == (if rows[j].modelYear.Some? then Some(Cleaning.Decade(rows[j].modelYear.value)) else None)
               && rows[j].yearCategory == Cleaning.YearCategoryOf(rows[j].modelYear, currentYear)
    ensures |TimeDimension(rows)| == |Distinct(Column(rows, ModelYearOf))|
  {
    DistinctSameShape(Column(rows, TimeTupleOf), Column(rows, ModelYearOf));
  }
}
