/** The fact table: the cleaned frame left-merged with the four dimensions in turn, reduced to
    the foreign keys and measures, and numbered with a registration id. */
module Facts {
  import opened Wrappers
  import opened Records
  import opened Frames
  import opened Dimensions

  /** A row of the frame while the merges run: the cleaned row and the dimension keys merged in
      so far (None until its merge, and None after it when nothing matched). */
  datatype Draft = Draft(row: Row, locationId: Option<int>, vehicleId: Option<int>,
                         utilityId: Option<int>, timeId: Option<int>)

  /** A fact_vehicle_registration row: registration_id, the four foreign keys and the measures
      Base MSRP, Electric Range, DOL Vehicle ID and VIN_Hash. */
  datatype Fact = Fact(registrationId: Option<int>,
                       locationId: Option<int>, vehicleId: Option<int>,
                       utilityId: Option<int>, timeId: Option<int>,
                       baseMsrp: Option<int>, electricRange: Option<real>,
                       dolVehicleId: Option<int>, vinHash: Option<string>)

  function Start(r: Row): Draft {
    Draft(r, None, None, None, None)
  }

  // Join columns of each merge, on the frame side and on the dimension side, and the key
  // column each merge brings back.

  function DraftPlace(d: Draft): Place { PlaceOf(d.row) }
  function LocationPlace(a: LocationAttrs): Place { a.place }
  function SetLocationId(d: Draft, id: Option<int>): Draft { d.(locationId := id) }

  function DraftVehicle(d: Draft): VehicleTuple { VehicleTupleOf(d.row) }
  function VehicleColumns(v: VehicleTuple): VehicleTuple { v }
  function SetVehicleId(d: Draft, id: Option<int>): Draft { d.(vehicleId := id) }

  function DraftUtility(d: Draft): Option<string> { UtilityOf(d.row) }
  function UtilityColumn(u: Option<string>): Option<string> { u }
  function SetUtilityId(d: Draft, id: Option<int>): Draft { d.(utilityId := id) }

  function DraftTime(d: Draft): TimeTuple { TimeTupleOf(d.row) }
  function TimeColumns(t: TimeTuple): TimeTuple { t }
  function SetTimeId(d: Draft, id: Option<int>): Draft { d.(timeId := id) }

  /** Merge on the six location columns (Vehicle Location is not among them). */
  function JoinLocation(ds: seq<Draft>, loc: seq<Keyed<LocationAttrs>>): seq<Draft> {
    MergeLeft(ds, loc, DraftPlace, LocationPlace, SetLocationId)
  }

  function JoinVehicle(ds: seq<Draft>, veh: seq<Keyed<VehicleTuple>>): seq<Draft> {
    MergeLeft(ds, veh, DraftVehicle, VehicleColumns, SetVehicleId)
  }

  function JoinUtility(ds: seq<Draft>, util: seq<Keyed<Option<string>>>): seq<Draft> {
    MergeLeft(ds, util, DraftUtility, UtilityColumn, SetUtilityId)
  }

  function JoinTime(ds: seq<Draft>, time: seq<Keyed<TimeTuple>>): seq<Draft> {
    MergeLeft(ds, time, DraftTime, TimeColumns, SetTimeId)
  }

  /** `fact_data[fact_cols]`: the keys and measures of one merged row. */
  function Measures(d: Draft): Fact {
    Fact(None, d.locationId, d.vehicleId, d.utilityId, d.timeId,
         d.row.baseMsrp, d.row.electricRange, d.row.dolVehicleId, d.row.vinHash)
  }

  /** The registration_id column `range(1, n + 1)` written into the projected rows. */
  function Register(ds: seq<Draft>): seq<Fact> {
    seq(|ds|, i requires 0 <= i < |ds| => Measures(ds[i]).(registrationId := Some(i + 1)))
  }

  /** The four dimension tables the fact table is merged with. */
  datatype Dims = Dims(loc: seq<Keyed<LocationAttrs>>, veh: seq<Keyed<VehicleTuple>>,
                       util: seq<Keyed<Option<string>>>, time: seq<Keyed<TimeTuple>>)

  /** The four dimensions built from the frame. */
  function DimsOf(rows: seq<Row>, parse: Option<string> -> Coords): Dims {
    Dims(LocationDimension(rows, parse), VehicleDimension(rows), UtilityDimension(rows), TimeDimension(rows))
  }

  /** The four merges of the cleaned frame, in the order the pipeline runs them. */
  function Joined(rows: seq<Row>, dims: Dims): seq<Draft> {
    JoinTime(JoinUtility(JoinVehicle(JoinLocation(Column(rows, Start), dims.loc), dims.veh), dims.util), dims.time)
  }

  /** fact_vehicle_registration built from the cleaned frame and the four dimension tables. */
  function FactTable(rows: seq<Row>, dims: Dims): seq<Fact> {
    Register(Joined(rows, dims))
  }

  /** The fact table when the four dimensions are the ones built from the same frame. */
  function BuildFacts(rows: seq<Row>, parse: Option<string> -> Coords): seq<Fact> {
    FactTable(rows, DimsOf(rows, parse))
  }

  /** Vehicle Location is a function of the six columns the location merge joins on. */
  predicate LocationDetermined(rows: seq<Row>) {
    forall i, j :: 0 <= i < |rows| && 0 <= j < |rows| && PlaceOf(rows[i]) == PlaceOf(rows[j]) ==>
      rows[i].vehicleLocation == rows[j].vehicleLocation
  }

  // ---------------------------------------------------------------------------------------
  // Referential integrity

  /** `id` is the key of a row of `table`. */
  predicate KeyIn<A>(id: Option<int>, table: seq<Keyed<A>>) {
    id.Some? && 1 <= id.value <= |table|
  }

  /** The keys of a merged row lead to dimension rows that carry the row's own join columns,
      for the merges done so far (`stage` of them). */
  predicate Resolved(d: Draft, rows: seq<Row>, dims: Dims, stage: nat) {
    && d.row in rows
    && (stage >= 1 ==> KeyIn(d.locationId, dims.loc) && dims.loc[d.locationId.value - 1].attrs.place == PlaceOf(d.row))
    && (stage >= 2 ==> KeyIn(d.vehicleId, dims.veh) && dims.veh[d.vehicleId.value - 1].attrs == VehicleTupleOf(d.row))
    && (stage >= 3 ==> KeyIn(d.utilityId, dims.util) && dims.util[d.utilityId.value - 1].attrs == UtilityOf(d.row))
    && (stage >= 4 ==> KeyIn(d.timeId, dims.time) && dims.time[d.timeId.value - 1].attrs == TimeTupleOf(d.row))
  }

  /** The merged frame `ds` follows the registrations row for row, each row resolved in the
      first `stage` dimensions. */
  predicate Follows(ds: seq<Draft>, rows: seq<Row>, dims: Dims, stage: nat) {
    |ds| == |rows| && forall j :: 0 <= j < |ds| ==> ds[j].row == rows[j] && Resolved(ds[j], rows, dims, stage)
  }

  /** A row of a table keyed 1..n sits at the position its key names. */
  lemma KeyedLookup<A>(table: seq<Keyed<A>>, r: Keyed<A>)
    requires forall i :: 0 <= i < |table| ==> table[i].id == i + 1
    requires r in table
    ensures 1 <= r.id <= |table| && table[r.id - 1] == r
  {
  }

  /** A row of the frame appears, projected, in the column built from the frame. */
  lemma ColumnMember<T>(rows: seq<Row>, f: Row -> T, r: Row)
    requires r in rows
    ensures f(r) in Column(rows, f)
  {
    var j :| 0 <= j < |rows| && rows[j] == r;
    assert Column(rows, f)[j] == f(r);
  }

  /** Every registration's six location columns are carried by some location row. */
  lemma LocationMatchExists(rows: seq<Row>, parse: Option<string> -> Coords, j: nat)
    requires j < |rows|
    ensures Matches(LocationDimension(rows, parse), LocationPlace, PlaceOf(rows[j])) != []
  {
    var loc := LocationDimension(rows, parse);
    LocationDimensionProperties(rows, parse);
    var k := SurrogateKey(Column(rows, LocationTupleOf), LocationTupleOf(rows[j]));
    assert LocationPlace(loc[k - 1].attrs) == PlaceOf(rows[j]);
    assert loc[k - 1] in Matches(loc, LocationPlace, PlaceOf(rows[j]));
  }

  /** The location merge gives every row a location key whose row carries its six columns. */
  lemma LocationStage(rows: seq<Row>, parse: Option<string> -> Coords, dims: Dims)
    requires dims.loc == LocationDimension(rows, parse)
    ensures forall x :: x in JoinLocation(Column(rows, Start), dims.loc) ==> Resolved(x, rows, dims, 1)
  {
    var loc := dims.loc;
    var d0 := Column(rows, Start);
    forall i | 0 <= i < |d0|
      ensures d0[i].row in rows && Matches(loc, LocationPlace, DraftPlace(d0[i])) != []
    {
      LocationMatchExists(rows, parse, i);
    }
    forall l: Draft, r | l.row in rows && r in loc && LocationPlace(r.attrs) == DraftPlace(l)
      ensures Resolved(SetLocationId(l, Some(r.id)), rows, dims, 1)
    {
      LocationKeyResolves(l, r, rows, parse, dims);
    }
    MergeLeftResolves(d0, loc, DraftPlace, LocationPlace, SetLocationId,
                      (d: Draft) => d.row in rows, (d: Draft) => Resolved(d, rows, dims, 1));
  }

  /** Attaching the key of a location row that carries a registration's six columns resolves it. */
  lemma LocationKeyResolves(l: Draft, r: Keyed<LocationAttrs>, rows: seq<Row>, parse: Option<string> -> Coords, dims: Dims)
    requires dims.loc == LocationDimension(rows, parse)
    requires l.row in rows && r in dims.loc && LocationPlace(r.attrs) == DraftPlace(l)
    ensures Resolved(SetLocationId(l, Some(r.id)), rows, dims, 1)
  {
    LocationDimensionProperties(rows, parse);
    KeyedLookup(dims.loc, r);
  }

  /** Attaching the key of the vehicle row that carries a registration's columns resolves it one stage further. */
  lemma VehicleKeyResolves(l: Draft, r: Keyed<VehicleTuple>, rows: seq<Row>, dims: Dims)
    requires dims.veh == VehicleDimension(rows)
    requires Resolved(l, rows, dims, 1) && r in dims.veh && VehicleColumns(r.attrs) == DraftVehicle(l)
    ensures Resolved(SetVehicleId(l, Some(r.id)), rows, dims, 2)
  {
    assert forall i :: 0 <= i < |dims.veh| ==> dims.veh[i].id == i + 1;
    KeyedLookup(dims.veh, r);
  }

  lemma VehicleStage(ds: seq<Draft>, rows: seq<Row>, dims: Dims)
    requires dims.veh == VehicleDimension(rows)
    requires forall x :: x in ds ==> Resolved(x, rows, dims, 1)
    ensures forall x :: x in JoinVehicle(ds, dims.veh) ==> Resolved(x, rows, dims, 2)
  {
    var veh := dims.veh;
    forall i | 0 <= i < |ds|
      ensures Resolved(ds[i], rows, dims, 1) && Matches(veh, VehicleColumns, DraftVehicle(ds[i])) != []
    {
      assert ds[i] in ds;
      ColumnMember(rows, VehicleTupleOf, ds[i].row);
      MatchesDedup(Column(rows, VehicleTupleOf), VehicleColumns, VehicleTupleOf(ds[i].row));
    }
    forall l: Draft, r | Resolved(l, rows, dims, 1) && r in veh && VehicleColumns(r.attrs) == DraftVehicle(l)
      ensures Resolved(SetVehicleId(l, Some(r.id)), rows, dims, 2)
    {
      VehicleKeyResolves(l, r, rows, dims);
    }
    MergeLeftResolves(ds, veh, DraftVehicle, VehicleColumns, SetVehicleId,
                      (d: Draft) => Resolved(d, rows, dims, 1), (d: Draft) => Resolved(d, rows, dims, 2));
  }

  /** Attaching the key of the utility row that carries a registration's columns resolves it one stage further. */
  lemma UtilityKeyResolves(l: Draft, r: Keyed<Option<string>>, rows: seq<Row>, dims: Dims)
    requires dims.util == UtilityDimension(rows)
    requires Resolved(l, rows, dims, 2) && r in dims.util && UtilityColumn(r.attrs) == DraftUtility(l)
    ensures Resolved(SetUtilityId(l, Some(r.id)), rows, dims, 3)
  {
    assert forall i :: 0 <= i < |dims.util| ==> dims.util[i].id == i + 1;
    KeyedLookup(dims.util, r);
  }

  lemma UtilityStage(ds: seq<Draft>, rows: seq<Row>, dims: Dims)
    requires dims.util == UtilityDimension(rows)
    requires forall x :: x in ds ==> Resolved(x, rows, dims, 2)
    ensures forall x :: x in JoinUtility(ds, dims.util) ==> Resolved(x, rows, dims, 3)
  {
    var util := dims.util;
    forall i | 0 <= i < |ds|
      ensures Resolved(ds[i], rows, dims, 2) && Matches(util, UtilityColumn, DraftUtility(ds[i])) != []
    {
      assert ds[i] in ds;
      ColumnMember(rows, UtilityOf, ds[i].row);
      MatchesDedup(Column(rows, UtilityOf), UtilityColumn, UtilityOf(ds[i].row));
    }
    forall l: Draft, r | Resolved(l, rows, dims, 2) && r in util && UtilityColumn(r.attrs) == DraftUtility(l)
      ensures Resolved(SetUtilityId(l, Some(r.id)), rows, dims, 3)
    {
      UtilityKeyResolves(l, r, rows, dims);
    }
    MergeLeftResolves(ds, util, DraftUtility, UtilityColumn, SetUtilityId,
                      (d: Draft) => Resolved(d, rows, dims, 2), (d: Draft) => Resolved(d, rows, dims, 3));
  }

  /** Attaching the key of the time row that carries a registration's columns resolves it one stage further. */
  lemma TimeKeyResolves(l: Draft, r: Keyed<TimeTuple>, rows: seq<Row>, dims: Dims)
    requires dims.time == TimeDimension(rows)
    requires Resolved(l, rows, dims, 3) && r in dims.time && TimeColumns(r.attrs) == DraftTime(l)
    ensures Resolved(SetTimeId(l, Some(r.id)), rows, dims, 4)
  {
    assert forall i :: 0 <= i < |dims.time| ==> dims.time[i].id == i + 1;
    KeyedLookup(dims.time, r);
  }

  lemma TimeStage(ds: seq<Draft>, rows: seq<Row>, dims: Dims)
    requires dims.time == TimeDimension(rows)
    requires forall x :: x in ds ==> Resolved(x, rows, dims, 3)
    ensures forall x :: x in JoinTime(ds, dims.time) ==> Resolved(x, rows, dims, 4)
  {
    var time := dims.time;
    forall i | 0 <= i < |ds|
      ensures Resolved(ds[i], rows, dims, 3) && Matches(time, TimeColumns, DraftTime(ds[i])) != []
    {
      assert ds[i] in ds;
      ColumnMember(rows, TimeTupleOf, ds[i].row);
      MatchesDedup(Column(rows, TimeTupleOf), TimeColumns, TimeTupleOf(ds[i].row));
    }
    forall l: Draft, r | Resolved(l, rows, dims, 3) && r in time && TimeColumns(r.attrs) == DraftTime(l)
      ensures Resolved(SetTimeId(l, Some(r.id)), rows, dims, 4)
    {
      TimeKeyResolves(l, r, rows, dims);
    }
    MergeLeftResolves(ds, time, DraftTime, TimeColumns, SetTimeId,
                      (d: Draft) => Resolved(d, rows, dims, 3), (d: Draft) => Resolved(d, rows, dims, 4));
  }

  /** The fact `f` records the registration `r`: its measures are `r`'s and each of its four
      keys names the dimension row that carries `r`'s columns for that dimension. */
  predicate Describes(f: Fact, r: Row, dims: Dims) {
    && f.baseMsrp == r.baseMsrp && f.electricRange == r.electricRange
    && f.dolVehicleId == r.dolVehicleId && f.vinHash == r.vinHash
    && KeyIn(f.locationId, dims.loc) && dims.loc[f.locationId.value - 1].attrs.place == PlaceOf(r)
    && KeyIn(f.vehicleId, dims.veh) && dims.veh[f.vehicleId.value - 1].attrs == VehicleTupleOf(r)
    && KeyIn(f.utilityId, dims.util) && dims.util[f.utilityId.value - 1].attrs == UtilityOf(r)
    && KeyIn(f.timeId, dims.time) && dims.time[f.timeId.value - 1].attrs == TimeTupleOf(r)
  }

  /** Referential integrity of the star schema: registration ids run 1..n, and every fact
      records some registration of the frame, with all four foreign keys present and naming
      dimension rows whose columns are that registration's. */
  lemma FactsResolve(rows: seq<Row>, parse: Option<string> -> Coords)
    ensures forall i :: 0 <= i < |BuildFacts(rows, parse)| ==>
              && BuildFacts(rows, parse)[i].registrationId == Some(i + 1)
              && exists j :: 0 <= j < |rows| && Describes(BuildFacts(rows, parse)[i], rows[j], DimsOf(rows, parse))
  {
    JoinedResolved(rows, parse);
    RegisterDescribes(Joined(rows, DimsOf(rows, parse)), rows, DimsOf(rows, parse));
  }

  /** Numbering resolved rows gives facts that each describe a registration of the frame. */
  lemma RegisterDescribes(ds: seq<Draft>, rows: seq<Row>, dims: Dims)
    requires forall x :: x in ds ==> Resolved(x, rows, dims, 4)
    ensures forall i :: 0 <= i < |Register(ds)| ==>
              && Register(ds)[i].registrationId == Some(i + 1)
              && exists j :: 0 <= j < |rows| && Describes(Register(ds)[i], rows[j], dims)
  {
    forall i | 0 <= i < |ds|
      ensures exists j :: 0 <= j < |rows| && Describes(Register(ds)[i], rows[j], dims)
    {
      assert ds[i] in ds;
      var j :| 0 <= j < |rows| && rows[j] == ds[i].row;
      assert Describes(Register(ds)[i], rows[j], dims);
    }
  }

  /** After the four merges every row is resolved in all four dimensions. */
  lemma JoinedResolved(rows: seq<Row>, parse: Option<string> -> Coords)
    ensures var dims := DimsOf(rows, parse);
            forall x :: x in Joined(rows, dims) ==> Resolved(x, rows, dims, 4)
  {
    var dims := DimsOf(rows, parse);
    var d1 := JoinLocation(Column(rows, Start), dims.loc);
    LocationStage(rows, parse, dims);
    var d2 := JoinVehicle(d1, dims.veh);
    VehicleStage(d1, rows, dims);
    var d3 := JoinUtility(d2, dims.util);
    UtilityStage(d2, rows, dims);
    TimeStage(d3, rows, dims);
  }

  // ---------------------------------------------------------------------------------------
  // Row count of the fact table

  /** Under the functional dependency, a registration's six location columns match exactly the
      location row of its seven-column tuple. */
  lemma LocationMatchUnique(rows: seq<Row>, parse: Option<string> -> Coords, j: nat)
    requires LocationDetermined(rows) && j < |rows|
    ensures var k := SurrogateKey(Column(rows, LocationTupleOf), LocationTupleOf(rows[j]));
            Matches(LocationDimension(rows, parse), LocationPlace, PlaceOf(rows[j]))
            == [LocationDimension(rows, parse)[k - 1]]
  {
    var keyed := DedupAndKey(Column(rows, LocationTupleOf));
    var loc := LocationDimension(rows, parse);
    var k := KeyOf(rows, LocationTupleOf, j);
    KeyOfNames(rows, LocationTupleOf, j);
    assert |loc| == |keyed|;
    forall i | 0 <= i < |loc| && i != k - 1
      ensures LocationPlace(loc[i].attrs) != PlaceOf(rows[j])
    {
      var a := RowSource(rows, LocationTupleOf, i + 1);
      KeyedApart(Column(rows, LocationTupleOf), i, k - 1);
      assert loc[i].attrs.place == keyed[i].attrs.place == PlaceOf(rows[a]);
    }
    assert loc[k - 1].attrs.place == PlaceOf(rows[j]);
    MatchesSingle(loc, LocationPlace, PlaceOf(rows[j]), k - 1);
  }

  /** The surrogate key of the tuple of the frame's row `r` in the dimension built from `f`. */
  function RowKey<T(==)>(rows: seq<Row>, f: Row -> T, r: Row): int
    requires r in rows
  {
    ColumnMember(rows, f, r);
    SurrogateKey(Column(rows, f), f(r))
  }

  /** The surrogate key of registration `j`'s tuple in the dimension built from `f`. */
  function KeyOf<T(==)>(rows: seq<Row>, f: Row -> T, j: nat): int
    requires j < |rows|
  {
    RowKey(rows, f, rows[j])
  }

  /** The surrogate key of a row's tuple names the dimension row holding that tuple. */
  lemma RowKeyNames<T>(rows: seq<Row>, f: Row -> T, r: Row)
    requires r in rows
    ensures var k := RowKey(rows, f, r);
            && 1 <= k <= |DedupAndKey(Column(rows, f))|
            && DedupAndKey(Column(rows, f))[k - 1].id == k
            && DedupAndKey(Column(rows, f))[k - 1].attrs == f(r)
  {
  }

  /** The surrogate key of a registration's tuple names the dimension row holding that tuple. */
  lemma KeyOfNames<T>(rows: seq<Row>, f: Row -> T, j: nat)
    requires j < |rows|
    ensures var k := KeyOf(rows, f, j);
            && 1 <= k <= |DedupAndKey(Column(rows, f))|
            && DedupAndKey(Column(rows, f))[k - 1].id == k
            && DedupAndKey(Column(rows, f))[k - 1].attrs == f(rows[j])
  {
    RowKeyNames(rows, f, rows[j]);
  }

  /** Under the functional dependency the location merge is row-for-row, and each row gets the
      key of the location row that carries its six columns. */
  lemma LocationOneToOne(rows: seq<Row>, parse: Option<string> -> Coords, dims: Dims)
    requires LocationDetermined(rows) && dims.loc == LocationDimension(rows, parse)
    ensures Follows(JoinLocation(Column(rows, Start), dims.loc), rows, dims, 1)
  {
    LocationMergeKeys(rows, parse, dims.loc);
    forall j | 0 <= j < |rows|
      ensures var out := JoinLocation(Column(rows, Start), dims.loc)[j];
              out.row == rows[j] && Resolved(out, rows, dims, 1)
    {
      LocationRow(JoinLocation(Column(rows, Start), dims.loc)[j], rows, parse, dims, j);
    }
  }

  /** A registration given the key of its own location tuple is resolved in the Location dimension. */
  lemma LocationRow(out: Draft, rows: seq<Row>, parse: Option<string> -> Coords, dims: Dims, j: nat)
    requires dims.loc == LocationDimension(rows, parse) && j < |rows|
    requires out == Start(rows[j]).(locationId := Some(KeyOf(rows, LocationTupleOf, j)))
    ensures out.row == rows[j] && Resolved(out, rows, dims, 1)
  {
    KeyOfNames(rows, LocationTupleOf, j);
    var k := KeyOf(rows, LocationTupleOf, j);
    assert dims.loc[k - 1].attrs.place == PlaceOf(rows[j]);
  }

  lemma LocationMergeKeys(rows: seq<Row>, parse: Option<string> -> Coords, loc: seq<Keyed<LocationAttrs>>)
    requires LocationDetermined(rows) && loc == LocationDimension(rows, parse)
    ensures |JoinLocation(Column(rows, Start), loc)| == |rows|
    ensures forall j :: 0 <= j < |rows| ==>
              JoinLocation(Column(rows, Start), loc)[j] == Start(rows[j]).(locationId := Some(KeyOf(rows, LocationTupleOf, j)))
  {
    var d0 := Column(rows, Start);
    forall j | 0 <= j < |d0|
      ensures |Matches(loc, LocationPlace, DraftPlace(d0[j]))| == 1
      ensures Matches(loc, LocationPlace, DraftPlace(d0[j]))[0].id == KeyOf(rows, LocationTupleOf, j)
    {
      LocationMatchUnique(rows, parse, j);
      KeyOfNames(rows, LocationTupleOf, j);
    }
    MergeLeftOneToOne(d0, loc, DraftPlace, LocationPlace, SetLocationId);
    forall j | 0 <= j < |rows|
      ensures JoinLocation(d0, loc)[j] == Start(rows[j]).(locationId := Some(KeyOf(rows, LocationTupleOf, j)))
    {
      assert JoinLocation(d0, loc)[j] == SetLocationId(d0[j], Some(Matches(loc, LocationPlace, DraftPlace(d0[j]))[0].id));
    }
  }


  /** The vehicle merge is always row-for-row: each row matches the row of its own tuple. */
  lemma VehicleOneToOne(ds: seq<Draft>, rows: seq<Row>, dims: Dims)
    requires dims.veh == VehicleDimension(rows)
    requires Follows(ds, rows, dims, 1)
    ensures Follows(JoinVehicle(ds, dims.veh), rows, dims, 2)
  {
    assert forall i :: 0 <= i < |ds| ==> ds[i].row in rows;
    VehicleMergeKeys(ds, rows, dims.veh);
    forall j | 0 <= j < |ds|
      ensures JoinVehicle(ds, dims.veh)[j].row == rows[j] && Resolved(JoinVehicle(ds, dims.veh)[j], rows, dims, 2)
    {
      assert KeyOf(rows, VehicleTupleOf, j) == RowKey(rows, VehicleTupleOf, ds[j].row);
      VehicleRow(ds[j], JoinVehicle(ds, dims.veh)[j], rows, dims, j);
    }
  }

  /** A row resolved in the earlier dimensions, given the key of its own vehicle row. */
  lemma VehicleRow(d: Draft, out: Draft, rows: seq<Row>, dims: Dims, j: nat)
    requires dims.veh == VehicleDimension(rows) && j < |rows|
    requires d.row == rows[j] && Resolved(d, rows, dims, 1)
    requires out == d.(vehicleId := Some(KeyOf(rows, VehicleTupleOf, j)))
    ensures out.row == rows[j] && Resolved(out, rows, dims, 2)
  {
    KeyOfNames(rows, VehicleTupleOf, j);
  }

  /** The vehicle merge of any frame of registrations is row-for-row: each row matches exactly
      the row of its own tuple and gets its key, whether or not the location merge was. */
  lemma VehicleMergeKeys(ds: seq<Draft>, rows: seq<Row>, veh: seq<Keyed<VehicleTuple>>)
    requires veh == VehicleDimension(rows)
    requires forall i :: 0 <= i < |ds| ==> ds[i].row in rows
    ensures |JoinVehicle(ds, veh)| == |ds|
    ensures forall i :: 0 <= i < |ds| ==>
              JoinVehicle(ds, veh)[i] == ds[i].(vehicleId := Some(RowKey(rows, VehicleTupleOf, ds[i].row)))
  {
    forall i | 0 <= i < |ds|
      ensures |Matches(veh, VehicleColumns, DraftVehicle(ds[i]))| == 1
      ensures Matches(veh, VehicleColumns, DraftVehicle(ds[i]))[0].id == RowKey(rows, VehicleTupleOf, ds[i].row)
    {
      ColumnMember(rows, VehicleTupleOf, ds[i].row);
      MatchesDedup(Column(rows, VehicleTupleOf), VehicleColumns, VehicleTupleOf(ds[i].row));
      RowKeyNames(rows, VehicleTupleOf, ds[i].row);
    }
    MergeLeftOneToOne(ds, veh, DraftVehicle, VehicleColumns, SetVehicleId);
    forall i | 0 <= i < |ds|
      ensures JoinVehicle(ds, veh)[i] == ds[i].(vehicleId := Some(RowKey(rows, VehicleTupleOf, ds[i].row)))
    {
      assert JoinVehicle(ds, veh)[i] == SetVehicleId(ds[i], Some(Matches(veh, VehicleColumns, DraftVehicle(ds[i]))[0].id));
    }
  }


  /** The utility merge is always row-for-row. */
  lemma UtilityOneToOne(ds: seq<Draft>, rows: seq<Row>, dims: Dims)
    requires dims.util == UtilityDimension(rows)
    requires Follows(ds, rows, dims, 2)
    ensures Follows(JoinUtility(ds, dims.util), rows, dims, 3)
  {
    assert forall i :: 0 <= i < |ds| ==> ds[i].row in rows;
    UtilityMergeKeys(ds, rows, dims.util);
    forall j | 0 <= j < |ds|
      ensures JoinUtility(ds, dims.util)[j].row == rows[j] && Resolved(JoinUtility(ds, dims.util)[j], rows, dims, 3)
    {
      assert KeyOf(rows, UtilityOf, j) == RowKey(rows, UtilityOf, ds[j].row);
      UtilityRow(ds[j], JoinUtility(ds, dims.util)[j], rows, dims, j);
    }
  }

  /** A row resolved in the earlier dimensions, given the key of its own utility row. */
  lemma UtilityRow(d: Draft, out: Draft, rows: seq<Row>, dims: Dims, j: nat)
    requires dims.util == UtilityDimension(rows) && j < |rows|
    requires d.row == rows[j] && Resolved(d, rows, dims, 2)
    requires out == d.(utilityId := Some(KeyOf(rows, UtilityOf, j)))
    ensures out.row == rows[j] && Resolved(out, rows, dims, 3)
  {
    KeyOfNames(rows, UtilityOf, j);
  }

  /** The utility merge of any frame of registrations is row-for-row: each row matches exactly
      the row of its own tuple and gets its key, whether or not the location merge was. */
  lemma UtilityMergeKeys(ds: seq<Draft>, rows: seq<Row>, util: seq<Keyed<Option<string>>>)
    requires util == UtilityDimension(rows)
    requires forall i :: 0 <= i < |ds| ==> ds[i].row in rows
    ensures |JoinUtility(ds, util)| == |ds|
    ensures forall i :: 0 <= i < |ds| ==>
              JoinUtility(ds, util)[i] == ds[i].(utilityId := Some(RowKey(rows, UtilityOf, ds[i].row)))
  {
    forall i | 0 <= i < |ds|
      ensures |Matches(util, UtilityColumn, DraftUtility(ds[i]))| == 1
      ensures Matches(util, UtilityColumn, DraftUtility(ds[i]))[0].id == RowKey(rows, UtilityOf, ds[i].row)
    {
      ColumnMember(rows, UtilityOf, ds[i].row);
      MatchesDedup(Column(rows, UtilityOf), UtilityColumn, UtilityOf(ds[i].row));
      RowKeyNames(rows, UtilityOf, ds[i].row);
    }
    MergeLeftOneToOne(ds, util, DraftUtility, UtilityColumn, SetUtilityId);
    forall i | 0 <= i < |ds|
      ensures JoinUtility(ds, util)[i] == ds[i].(utilityId := Some(RowKey(rows, UtilityOf, ds[i].row)))
    {
      assert JoinUtility(ds, util)[i] == SetUtilityId(ds[i], Some(Matches(util, UtilityColumn, DraftUtility(ds[i]))[0].id));
    }
  }


  /** The time merge is always row-for-row. */
  lemma TimeOneToOne(ds: seq<Draft>, rows: seq<Row>, dims: Dims)
    requires dims.time == TimeDimension(rows)
    requires Follows(ds, rows, dims, 3)
    ensures Follows(JoinTime(ds, dims.time), rows, dims, 4)
  {
    assert forall i :: 0 <= i < |ds| ==> ds[i].row in rows;
    TimeMergeKeys(ds, rows, dims.time);
    forall j | 0 <= j < |ds|
      ensures JoinTime(ds, dims.time)[j].row == rows[j] && Resolved(JoinTime(ds, dims.time)[j], rows, dims, 4)
    {
      assert KeyOf(rows, TimeTupleOf, j) == RowKey(rows, TimeTupleOf, ds[j].row);
      TimeRow(ds[j], JoinTime(ds, dims.time)[j], rows, dims, j);
    }
  }

  /** A row resolved in the earlier dimensions, given the key of its own time row. */
  lemma TimeRow(d: Draft, out: Draft, rows: seq<Row>, dims: Dims, j: nat)
    requires dims.time == TimeDimension(rows) && j < |rows|
    requires d.row == rows[j] && Resolved(d, rows, dims, 3)
    requires out == d.(timeId := Some(KeyOf(rows, TimeTupleOf, j)))
    ensures out.row == rows[j] && Resolved(out, rows, dims, 4)
  {
    KeyOfNames(rows, TimeTupleOf, j);
  }

  /** The time merge of any frame of registrations is row-for-row: each row matches exactly
      the row of its own tuple and gets its key, whether or not the location merge was. */
  lemma TimeMergeKeys(ds: seq<Draft>, rows: seq<Row>, time: seq<Keyed<TimeTuple>>)
    requires time == TimeDimension(rows)
    requires forall i :: 0 <= i < |ds| ==> ds[i].row in rows
    ensures |JoinTime(ds, time)| == |ds|
    ensures forall i :: 0 <= i < |ds| ==>
              JoinTime(ds, time)[i] == ds[i].(timeId := Some(RowKey(rows, TimeTupleOf, ds[i].row)))
  {
    forall i | 0 <= i < |ds|
      ensures |Matches(time, TimeColumns, DraftTime(ds[i]))| == 1
      ensures Matches(time, TimeColumns, DraftTime(ds[i]))[0].id == RowKey(rows, TimeTupleOf, ds[i].row)
    {
      ColumnMember(rows, TimeTupleOf, ds[i].row);
      MatchesDedup(Column(rows, TimeTupleOf), TimeColumns, TimeTupleOf(ds[i].row));
      RowKeyNames(rows, TimeTupleOf, ds[i].row);
    }
    MergeLeftOneToOne(ds, time, DraftTime, TimeColumns, SetTimeId);
    forall i | 0 <= i < |ds|
      ensures JoinTime(ds, time)[i] == ds[i].(timeId := Some(RowKey(rows, TimeTupleOf, ds[i].row)))
    {
      assert JoinTime(ds, time)[i] == SetTimeId(ds[i], Some(Matches(time, TimeColumns, DraftTime(ds[i]))[0].id));
    }
  }


  /** One fact per registration: when Vehicle Location is a function of the six location
      columns, the fact table has exactly one row per registration, in frame order: fact `j`
      has registration id j + 1 and records registration `j`. */
  lemma OneFactPerRecord(rows: seq<Row>, parse: Option<string> -> Coords)
    requires LocationDetermined(rows)
    ensures |BuildFacts(rows, parse)| == |rows|
    ensures forall j :: 0 <= j < |rows| ==>
              && BuildFacts(rows, parse)[j].registrationId == Some(j + 1)
              && Describes(BuildFacts(rows, parse)[j], rows[j], DimsOf(rows, parse))
  {
    var dims := DimsOf(rows, parse);
    var d1 := JoinLocation(Column(rows, Start), dims.loc);
    LocationOneToOne(rows, parse, dims);
    var d2 := JoinVehicle(d1, dims.veh);
    VehicleOneToOne(d1, rows, dims);
    var d3 := JoinUtility(d2, dims.util);
    UtilityOneToOne(d2, rows, dims);
    var d4 := JoinTime(d3, dims.time);
    TimeOneToOne(d3, rows, dims);
    RegisterRows(d4, rows, dims);
    assert BuildFacts(rows, parse) == Register(d4);
  }

  /** Numbering resolved rows that follow the frame row for row gives facts recording the frame's
      registrations in order. */
  lemma RegisterRows(ds: seq<Draft>, rows: seq<Row>, dims: Dims)
    requires Follows(ds, rows, dims, 4)
    ensures |Register(ds)| == |rows|
    ensures forall j :: 0 <= j < |rows| ==>
              Register(ds)[j].registrationId == Some(j + 1) && Describes(Register(ds)[j], rows[j], dims)
  {
  }

  /** A registration whose six columns are shared with one of another Vehicle Location matches
      two location rows. */
  lemma TwoLocationMatches(rows: seq<Row>, parse: Option<string> -> Coords, a: nat, b: nat)
    requires a < |rows| && b < |rows| && PlaceOf(rows[a]) == PlaceOf(rows[b])
    requires rows[a].vehicleLocation != rows[b].vehicleLocation
    ensures |Matches(LocationDimension(rows, parse), LocationPlace, PlaceOf(rows[a]))| >= 2
  {
    var loc := LocationDimension(rows, parse);
    KeyOfNames(rows, LocationTupleOf, a);
    KeyOfNames(rows, LocationTupleOf, b);
    var ka := KeyOf(rows, LocationTupleOf, a);
    var kb := KeyOf(rows, LocationTupleOf, b);
    var m := Matches(loc, LocationPlace, PlaceOf(rows[a]));
    assert loc[ka - 1] == Keyed(ka, Locate(LocationTupleOf(rows[a]), parse));
    assert loc[kb - 1] == Keyed(kb, Locate(LocationTupleOf(rows[b]), parse));
    assert loc[ka - 1] in m && loc[kb - 1] in m;
    var i :| 0 <= i < |m| && m[i] == loc[ka - 1];
    var i' :| 0 <= i' < |m| && m[i'] == loc[kb - 1];
    assert i != i';
  }


  /** Without the functional dependency the location merge has more rows than the frame. */
  lemma LocationDuplicates(rows: seq<Row>, parse: Option<string> -> Coords, loc: seq<Keyed<LocationAttrs>>)
    requires !LocationDetermined(rows) && loc == LocationDimension(rows, parse)
    ensures |JoinLocation(Column(rows, Start), loc)| > |rows|
  {
    var d0 := Column(rows, Start);
    var a, b :| 0 <= a < |rows| && 0 <= b < |rows| && PlaceOf(rows[a]) == PlaceOf(rows[b])
                && rows[a].vehicleLocation != rows[b].vehicleLocation;
    TwoLocationMatches(rows, parse, a, b);
    assert DraftPlace(d0[a]) == PlaceOf(rows[a]);
    MergeLeftLength(d0, loc, DraftPlace, LocationPlace, SetLocationId);
  }

  /** In the location merge registration j gives one consecutive block, after the rows of the
      registrations before it and before those of the registrations after it; `Frames.Fan` states
      the block's rows and `LocationBlockRows` spells them out. */
  lemma LocationBlock(rows: seq<Row>, loc: seq<Keyed<LocationAttrs>>, j: nat)
    requires j < |rows|
    ensures JoinLocation(Column(rows, Start), loc)
            == JoinLocation(Column(rows[..j], Start), loc)
               + Fan(Start(rows[j]), Matches(loc, LocationPlace, PlaceOf(rows[j])), SetLocationId)
               + JoinLocation(Column(rows[j + 1..], Start), loc)
  {
    var d0 := Column(rows, Start);
    assert d0[..j] == Column(rows[..j], Start);
    assert d0[j + 1..] == Column(rows[j + 1..], Start);
    assert DraftPlace(d0[j]) == PlaceOf(rows[j]);
    MergeLeftBlock(d0, loc, DraftPlace, LocationPlace, SetLocationId, j);
  }

  /** Registration j's block in the location merge, row by row: it starts after the rows of the
      registrations before it and holds one row per location row carrying its six columns, in
      dimension order and with that row's key, or a single row with no location key when no
      location row carries them. */
  lemma LocationBlockRows(rows: seq<Row>, loc: seq<Keyed<LocationAttrs>>, j: nat)
    requires j < |rows|
    ensures var m := Matches(loc, LocationPlace, PlaceOf(rows[j]));
            var out := JoinLocation(Column(rows, Start), loc);
            var start := |JoinLocation(Column(rows[..j], Start), loc)|;
            && start + (if m == [] then 1 else |m|) <= |out|
            && (m == [] ==> out[start] == Start(rows[j]).(locationId := None))
            && forall i :: 0 <= i < |m| ==> out[start + i] == Start(rows[j]).(locationId := Some(m[i].id))
  {
    var m := Matches(loc, LocationPlace, PlaceOf(rows[j]));
    var before := JoinLocation(Column(rows[..j], Start), loc);
    var block := Fan(Start(rows[j]), m, SetLocationId);
    var after := JoinLocation(Column(rows[j + 1..], Start), loc);
    LocationBlock(rows, loc, j);
    BlockAt(before, block, after);
  }

  /** The fact numbered i + 1 that the vehicle, utility and time merges and the projection make
      of the location-merge row `d`: its location key, the keys of its registration's own vehicle,
      utility and time tuples, and that registration's measures. */
  function MergedFact(rows: seq<Row>, d: Draft, i: int): Fact
    requires d.row in rows
  {
    Fact(Some(i + 1), d.locationId,
         Some(RowKey(rows, VehicleTupleOf, d.row)), Some(RowKey(rows, UtilityOf, d.row)), Some(RowKey(rows, TimeTupleOf, d.row)),
         d.row.baseMsrp, d.row.electricRange, d.row.dolVehicleId, d.row.vinHash)
  }

  /** Draft `d` with the keys of its registration's own vehicle, utility and time tuples. */
  function WithOwnKeys(rows: seq<Row>, d: Draft): Draft
    requires d.row in rows
  {
    d.(vehicleId := Some(RowKey(rows, VehicleTupleOf, d.row)),
       utilityId := Some(RowKey(rows, UtilityOf, d.row)),
       timeId := Some(RowKey(rows, TimeTupleOf, d.row)))
  }

  /** Every row of the location merge belongs to a registration of the frame. */
  lemma LocationMergeRows(rows: seq<Row>, parse: Option<string> -> Coords)
    ensures var d1 := JoinLocation(Column(rows, Start), DimsOf(rows, parse).loc);
            forall i :: 0 <= i < |d1| ==> d1[i].row in rows
  {
    var dims := DimsOf(rows, parse);
    var d1 := JoinLocation(Column(rows, Start), dims.loc);
    LocationStage(rows, parse, dims);
    forall i | 0 <= i < |d1| ensures d1[i].row in rows {
      assert d1[i] in d1;
    }
  }

  /** The vehicle and utility merges of any frame of registrations are row-for-row, each row
      gaining the keys of its own vehicle and utility tuples. */
  lemma VehicleUtilityMerges(ds: seq<Draft>, rows: seq<Row>, dims: Dims)
    requires dims.veh == VehicleDimension(rows) && dims.util == UtilityDimension(rows)
    requires forall i :: 0 <= i < |ds| ==> ds[i].row in rows
    ensures var d3 := JoinUtility(JoinVehicle(ds, dims.veh), dims.util);
            && |d3| == |ds|
            && forall i :: 0 <= i < |ds| ==>
                 d3[i] == ds[i].(vehicleId := Some(RowKey(rows, VehicleTupleOf, ds[i].row)),
                                 utilityId := Some(RowKey(rows, UtilityOf, ds[i].row)))
  {
    VehicleMergeKeys(ds, rows, dims.veh);
    var d2 := JoinVehicle(ds, dims.veh);
    assert forall i :: 0 <= i < |d2| ==> d2[i].row in rows by {
      forall i | 0 <= i < |d2| ensures d2[i].row in rows {
        assert d2[i].row == ds[i].row;
      }
    }
    UtilityMergeKeys(d2, rows, dims.util);
    AddUtilityKeys(ds, d2, JoinUtility(d2, dims.util), rows);
  }

  /** Setting the utility key on rows that already carry their vehicle key. */
  lemma AddUtilityKeys(ds: seq<Draft>, d2: seq<Draft>, d3: seq<Draft>, rows: seq<Row>)
    requires forall i :: 0 <= i < |ds| ==> ds[i].row in rows
    requires |d2| == |ds| && forall i :: 0 <= i < |ds| ==> d2[i] == ds[i].(vehicleId := Some(RowKey(rows, VehicleTupleOf, ds[i].row)))
    requires forall i :: 0 <= i < |d2| ==> d2[i].row in rows
    requires |d3| == |d2| && forall i :: 0 <= i < |d2| ==> d3[i] == d2[i].(utilityId := Some(RowKey(rows, UtilityOf, d2[i].row)))
    ensures |d3| == |ds| && forall i :: 0 <= i < |ds| ==>
              d3[i] == ds[i].(vehicleId := Some(RowKey(rows, VehicleTupleOf, ds[i].row)),
                              utilityId := Some(RowKey(rows, UtilityOf, ds[i].row)))
  {
    forall i | 0 <= i < |ds|
      ensures d3[i] == ds[i].(vehicleId := Some(RowKey(rows, VehicleTupleOf, ds[i].row)),
                              utilityId := Some(RowKey(rows, UtilityOf, ds[i].row)))
    {
      assert d2[i].row == ds[i].row;
    }
  }

  /** The vehicle, utility and time merges of any frame of registrations are row-for-row, each
      row gaining the keys of its own tuples. */
  lemma LaterMerges(ds: seq<Draft>, rows: seq<Row>, dims: Dims)
    requires dims.veh == VehicleDimension(rows) && dims.util == UtilityDimension(rows) && dims.time == TimeDimension(rows)
    requires forall i :: 0 <= i < |ds| ==> ds[i].row in rows
    ensures var d4 := JoinTime(JoinUtility(JoinVehicle(ds, dims.veh), dims.util), dims.time);
            && |d4| == |ds|
            && forall i :: 0 <= i < |ds| ==> d4[i] == WithOwnKeys(rows, ds[i])
  {
    VehicleUtilityMerges(ds, rows, dims);
    var d3 := JoinUtility(JoinVehicle(ds, dims.veh), dims.util);
    KeepsRows(ds, d3, rows);
    TimeMergeKeys(d3, rows, dims.time);
    AddTimeKeys(ds, d3, JoinTime(d3, dims.time), rows);
  }

  /** Setting the vehicle and utility keys leaves each row's registration in place. */
  lemma KeepsRows(ds: seq<Draft>, d3: seq<Draft>, rows: seq<Row>)
    requires forall i :: 0 <= i < |ds| ==> ds[i].row in rows
    requires |d3| == |ds| && forall i :: 0 <= i < |ds| ==>
               d3[i] == ds[i].(vehicleId := Some(RowKey(rows, VehicleTupleOf, ds[i].row)),
                               utilityId := Some(RowKey(rows, UtilityOf, ds[i].row)))
    ensures forall i :: 0 <= i < |d3| ==> d3[i].row in rows
  {
    forall i | 0 <= i < |d3| ensures d3[i].row in rows {
      assert d3[i].row == ds[i].row;
    }
  }

  /** Setting the time key on rows that already carry their vehicle and utility keys gives
      `WithOwnKeys`. */
  lemma AddTimeKeys(ds: seq<Draft>, d3: seq<Draft>, d4: seq<Draft>, rows: seq<Row>)
    requires forall i :: 0 <= i < |ds| ==> ds[i].row in rows
    requires |d3| == |ds| && forall i :: 0 <= i < |ds| ==>
               d3[i] == ds[i].(vehicleId := Some(RowKey(rows, VehicleTupleOf, ds[i].row)),
                               utilityId := Some(RowKey(rows, UtilityOf, ds[i].row)))
    requires forall i :: 0 <= i < |d3| ==> d3[i].row in rows
    requires |d4| == |d3| && forall i :: 0 <= i < |d3| ==> d4[i] == d3[i].(timeId := Some(RowKey(rows, TimeTupleOf, d3[i].row)))
    ensures |d4| == |ds| && forall i :: 0 <= i < |ds| ==> d4[i] == WithOwnKeys(rows, ds[i])
  {
    forall i | 0 <= i < |ds| ensures d4[i] == WithOwnKeys(rows, ds[i]) {
      assert d3[i].row == ds[i].row;
    }
  }

  /** Numbering and projecting rows that carry their own keys gives the facts `MergedFact` names. */
  lemma RegisterOwnKeys(d4: seq<Draft>, ds: seq<Draft>, rows: seq<Row>)
    requires forall i :: 0 <= i < |ds| ==> ds[i].row in rows
    requires |d4| == |ds| && forall i :: 0 <= i < |ds| ==> d4[i] == WithOwnKeys(rows, ds[i])
    ensures |Register(d4)| == |ds| && forall i :: 0 <= i < |ds| ==> Register(d4)[i] == MergedFact(rows, ds[i], i)
  {
    forall i | 0 <= i < |ds| ensures Register(d4)[i] == MergedFact(rows, ds[i], i) {
      RegisterAt(d4, i);
    }
  }

  /** Whatever the Vehicle Locations, the vehicle, utility and time merges keep the location merge
      row for row: fact i comes from row i of the location merge. */
  lemma FactsFollowLocationMerge(rows: seq<Row>, parse: Option<string> -> Coords)
    ensures var d1 := JoinLocation(Column(rows, Start), DimsOf(rows, parse).loc);
            && |BuildFacts(rows, parse)| == |d1|
            && (forall i :: 0 <= i < |d1| ==> d1[i].row in rows)
            && forall i :: 0 <= i < |d1| ==> BuildFacts(rows, parse)[i] == MergedFact(rows, d1[i], i)
  {
    var dims := DimsOf(rows, parse);
    var d1 := JoinLocation(Column(rows, Start), dims.loc);
    LocationMergeRows(rows, parse);
    LaterMerges(d1, rows, dims);
    RegisterOwnKeys(Joined(rows, dims), d1, rows);
    assert BuildFacts(rows, parse) == Register(Joined(rows, dims));
  }

  /** The fact table has one row per registration exactly when Vehicle Location is a function
      of the six location columns; otherwise it has more rows than the frame. */
  lemma FactCountIff(rows: seq<Row>, parse: Option<string> -> Coords)
    ensures |BuildFacts(rows, parse)| == |rows| <==> LocationDetermined(rows)
    ensures |BuildFacts(rows, parse)| >= |rows|
  {
    var dims := DimsOf(rows, parse);
    var d1 := JoinLocation(Column(rows, Start), dims.loc);
    assert |BuildFacts(rows, parse)| == |Joined(rows, dims)| >= |d1| >= |rows|;
    if LocationDetermined(rows) {
      OneFactPerRecord(rows, parse);
    } else {
      LocationDuplicates(rows, parse, dims.loc);
    }
  }

  // ---------------------------------------------------------------------------------------
  // Coverage: every registration has a fact, and every dimension row is used by one

  /** A registration survives the four merges once for every choice of location, vehicle,
      utility and time rows that carry its columns, with the keys of the rows chosen. */
  lemma JoinedContains(rows: seq<Row>, dims: Dims, j: nat, rl: Keyed<LocationAttrs>, rv: Keyed<VehicleTuple>,
                       ru: Keyed<Option<string>>, rt: Keyed<TimeTuple>)
    requires j < |rows|
    requires rl in dims.loc && rl.attrs.place == PlaceOf(rows[j])
    requires rv in dims.veh && rv.attrs == VehicleTupleOf(rows[j])
    requires ru in dims.util && ru.attrs == UtilityOf(rows[j])
    requires rt in dims.time && rt.attrs == TimeTupleOf(rows[j])
    ensures Draft(rows[j], Some(rl.id), Some(rv.id), Some(ru.id), Some(rt.id)) in Joined(rows, dims)
  {
    var d0 := Column(rows, Start);
    assert d0[j] == Start(rows[j]);
    MergeLeftKeeps(d0, dims.loc, DraftPlace, LocationPlace, SetLocationId, Start(rows[j]), rl);
    var x1 := SetLocationId(Start(rows[j]), Some(rl.id));
    var d1 := JoinLocation(d0, dims.loc);
    MergeLeftKeeps(d1, dims.veh, DraftVehicle, VehicleColumns, SetVehicleId, x1, rv);
    var x2 := SetVehicleId(x1, Some(rv.id));
    var d2 := JoinVehicle(d1, dims.veh);
    MergeLeftKeeps(d2, dims.util, DraftUtility, UtilityColumn, SetUtilityId, x2, ru);
    var x3 := SetUtilityId(x2, Some(ru.id));
    var d3 := JoinUtility(d2, dims.util);
    MergeLeftKeeps(d3, dims.time, DraftTime, TimeColumns, SetTimeId, x3, rt);
  }

  /** The fact table holds a fact for each such choice: the registration's measures with the
      keys of the rows chosen. */
  lemma FactFor(rows: seq<Row>, dims: Dims, j: nat, rl: Keyed<LocationAttrs>, rv: Keyed<VehicleTuple>,
                ru: Keyed<Option<string>>, rt: Keyed<TimeTuple>) returns (i: nat)
    requires j < |rows|
    requires rl in dims.loc && rl.attrs.place == PlaceOf(rows[j])
    requires rv in dims.veh && rv.attrs == VehicleTupleOf(rows[j])
    requires ru in dims.util && ru.attrs == UtilityOf(rows[j])
    requires rt in dims.time && rt.attrs == TimeTupleOf(rows[j])
    ensures i < |FactTable(rows, dims)|
    ensures FactTable(rows, dims)[i] == Fact(Some(i + 1), Some(rl.id), Some(rv.id), Some(ru.id), Some(rt.id),
                                             rows[j].baseMsrp, rows[j].electricRange, rows[j].dolVehicleId, rows[j].vinHash)
  {
    var d := Draft(rows[j], Some(rl.id), Some(rv.id), Some(ru.id), Some(rt.id));
    JoinedContains(rows, dims, j, rl, rv, ru, rt);
    var ds := Joined(rows, dims);
    i :| 0 <= i < |ds| && ds[i] == d;
    RegisterAt(ds, i);
  }

  /** Fact `i` is merged row `i` projected onto the fact columns and numbered i + 1. */
  lemma RegisterAt(ds: seq<Draft>, i: nat)
    requires i < |ds|
    ensures |Register(ds)| == |ds| && Register(ds)[i] == Measures(ds[i]).(registrationId := Some(i + 1))
  {
  }

  /** The rows of the four dimensions built from the frame that carry registration `j`'s own
      tuples, each sitting at the position its key names. */
  lemma OwnRows(rows: seq<Row>, parse: Option<string> -> Coords, j: nat)
      returns (rl: Keyed<LocationAttrs>, rv: Keyed<VehicleTuple>, ru: Keyed<Option<string>>, rt: Keyed<TimeTuple>)
    requires j < |rows|
    ensures var dims := DimsOf(rows, parse);
            && rl in dims.loc && rl.attrs.place == PlaceOf(rows[j]) && KeyIn(Some(rl.id), dims.loc) && dims.loc[rl.id - 1] == rl
            && rv in dims.veh && rv.attrs == VehicleTupleOf(rows[j]) && KeyIn(Some(rv.id), dims.veh) && dims.veh[rv.id - 1] == rv
            && ru in dims.util && ru.attrs == UtilityOf(rows[j]) && KeyIn(Some(ru.id), dims.util) && dims.util[ru.id - 1] == ru
            && rt in dims.time && rt.attrs == TimeTupleOf(rows[j]) && KeyIn(Some(rt.id), dims.time) && dims.time[rt.id - 1] == rt
            && rl.id == KeyOf(rows, LocationTupleOf, j) && rv.id == KeyOf(rows, VehicleTupleOf, j)
            && ru.id == KeyOf(rows, UtilityOf, j) && rt.id == KeyOf(rows, TimeTupleOf, j)
  {
    var dims := DimsOf(rows, parse);
    KeyOfNames(rows, LocationTupleOf, j);
    KeyOfNames(rows, VehicleTupleOf, j);
    KeyOfNames(rows, UtilityOf, j);
    KeyOfNames(rows, TimeTupleOf, j);
    rl := dims.loc[KeyOf(rows, LocationTupleOf, j) - 1];
    rv := dims.veh[KeyOf(rows, VehicleTupleOf, j) - 1];
    ru := dims.util[KeyOf(rows, UtilityOf, j) - 1];
    rt := dims.time[KeyOf(rows, TimeTupleOf, j) - 1];
  }

  /** Row `k` of a dimension was built from some registration: it carries that registration's
      tuple under key `k`. */
  lemma RowSource<T>(rows: seq<Row>, f: Row -> T, k: nat) returns (j: nat)
    requires 1 <= k <= |DedupAndKey(Column(rows, f))|
    ensures j < |rows| && DedupAndKey(Column(rows, f))[k - 1] == Keyed(k, f(rows[j]))
  {
    var col := Column(rows, f);
    var t := Distinct(col)[k - 1];
    assert t in col;
    var i :| 0 <= i < |col| && col[i] == t;
    j := i;
  }

  /** Some fact of `facts` records the registration `r`. */
  predicate Recorded(facts: seq<Fact>, r: Row, dims: Dims) {
    exists i :: 0 <= i < |facts| && Describes(facts[i], r, dims)
  }

  // The four foreign keys of a fact.
  function LocationKey(f: Fact): Option<int> { f.locationId }
  function VehicleKey(f: Fact): Option<int> { f.vehicleId }
  function UtilityKey(f: Fact): Option<int> { f.utilityId }
  function TimeKey(f: Fact): Option<int> { f.timeId }

  /** Some fact of `facts` has `k` as the key selected by `key`. */
  predicate KeyUsed(facts: seq<Fact>, key: Fact -> Option<int>, k: int) {
    exists i :: 0 <= i < |facts| && key(facts[i]) == Some(k)
  }

  /** Every registration has a fact: whatever the Vehicle Locations, some fact records it. */
  lemma EveryRegistrationHasFact(rows: seq<Row>, parse: Option<string> -> Coords)
    ensures forall j :: 0 <= j < |rows| ==> Recorded(BuildFacts(rows, parse), rows[j], DimsOf(rows, parse))
  {
    forall j | 0 <= j < |rows|
      ensures Recorded(BuildFacts(rows, parse), rows[j], DimsOf(rows, parse))
    {
      var i := RegistrationFact(rows, parse, j);
    }
  }

  /** The fact that records registration `j` with the keys of its own dimension rows. */
  lemma RegistrationFact(rows: seq<Row>, parse: Option<string> -> Coords, j: nat) returns (i: nat)
    requires j < |rows|
    ensures i < |BuildFacts(rows, parse)| && Describes(BuildFacts(rows, parse)[i], rows[j], DimsOf(rows, parse))
    ensures BuildFacts(rows, parse)[i].locationId == Some(KeyOf(rows, LocationTupleOf, j))
    ensures BuildFacts(rows, parse)[i].vehicleId == Some(KeyOf(rows, VehicleTupleOf, j))
    ensures BuildFacts(rows, parse)[i].utilityId == Some(KeyOf(rows, UtilityOf, j))
    ensures BuildFacts(rows, parse)[i].timeId == Some(KeyOf(rows, TimeTupleOf, j))
  {
    var dims := DimsOf(rows, parse);
    var rl, rv, ru, rt := OwnRows(rows, parse, j);
    i := FactFor(rows, dims, j, rl, rv, ru, rt);
    var facts := FactTable(rows, dims);
    assert BuildFacts(rows, parse) == facts;
    KeysDescribe(facts[i], rows[j], dims, rl, rv, ru, rt);
  }

  /** A fact with a registration's measures and the keys of dimension rows carrying its
      columns records that registration. */
  lemma KeysDescribe(f: Fact, r: Row, dims: Dims, rl: Keyed<LocationAttrs>, rv: Keyed<VehicleTuple>,
                     ru: Keyed<Option<string>>, rt: Keyed<TimeTuple>)
    requires f.baseMsrp == r.baseMsrp && f.electricRange == r.electricRange
    requires f.dolVehicleId == r.dolVehicleId && f.vinHash == r.vinHash
    requires f.locationId == Some(rl.id) && KeyIn(f.locationId, dims.loc) && dims.loc[rl.id - 1] == rl && rl.attrs.place == PlaceOf(r)
    requires f.vehicleId == Some(rv.id) && KeyIn(f.vehicleId, dims.veh) && dims.veh[rv.id - 1] == rv && rv.attrs == VehicleTupleOf(r)
    requires f.utilityId == Some(ru.id) && KeyIn(f.utilityId, dims.util) && dims.util[ru.id - 1] == ru && ru.attrs == UtilityOf(r)
    requires f.timeId == Some(rt.id) && KeyIn(f.timeId, dims.time) && dims.time[rt.id - 1] == rt && rt.attrs == TimeTupleOf(r)
    ensures Describes(f, r, dims)
  {
  }

  /** Every location row is the location of some fact. */
  lemma EveryLocationUsed(rows: seq<Row>, parse: Option<string> -> Coords)
    ensures forall k :: 1 <= k <= |DimsOf(rows, parse).loc| ==> KeyUsed(BuildFacts(rows, parse), LocationKey, k)
  {
    forall k | 1 <= k <= |DimsOf(rows, parse).loc|
      ensures KeyUsed(BuildFacts(rows, parse), LocationKey, k)
    {
      var i := LocationRowUsed(rows, parse, k);
    }
  }

  /** A fact whose location is location row `k`: that of a registration the row was built from. */
  lemma LocationRowUsed(rows: seq<Row>, parse: Option<string> -> Coords, k: nat) returns (i: nat)
    requires 1 <= k <= |DimsOf(rows, parse).loc|
    ensures i < |BuildFacts(rows, parse)| && BuildFacts(rows, parse)[i].locationId == Some(k)
  {
    var dims := DimsOf(rows, parse);
    var keyed := DedupAndKey(Column(rows, LocationTupleOf));
    assert |dims.loc| == |keyed|;
    var j := RowSource(rows, LocationTupleOf, k);
    var rl := dims.loc[k - 1];
    assert rl == Keyed(keyed[k - 1].id, Locate(keyed[k - 1].attrs, parse));
    var _, rv, ru, rt := OwnRows(rows, parse, j);
    i := FactFor(rows, dims, j, rl, rv, ru, rt);
    assert BuildFacts(rows, parse) == FactTable(rows, dims);
  }

  /** Every vehicle row is the vehicle of some fact. */
  lemma EveryVehicleUsed(rows: seq<Row>, parse: Option<string> -> Coords)
    ensures forall k :: 1 <= k <= |DimsOf(rows, parse).veh| ==> KeyUsed(BuildFacts(rows, parse), VehicleKey, k)
  {
    forall k | 1 <= k <= |DimsOf(rows, parse).veh|
      ensures KeyUsed(BuildFacts(rows, parse), VehicleKey, k)
    {
      var i := VehicleRowUsed(rows, parse, k);
    }
  }

  /** A fact whose vehicle is vehicle row `k`: that of a registration the row was built from. */
  lemma VehicleRowUsed(rows: seq<Row>, parse: Option<string> -> Coords, k: nat) returns (i: nat)
    requires 1 <= k <= |DimsOf(rows, parse).veh|
    ensures i < |BuildFacts(rows, parse)| && BuildFacts(rows, parse)[i].vehicleId == Some(k)
  {
    var dims := DimsOf(rows, parse);
    assert dims.veh == DedupAndKey(Column(rows, VehicleTupleOf));
    var j := RowSource(rows, VehicleTupleOf, k);
    var rv := dims.veh[k - 1];
    var rl, _, ru, rt := OwnRows(rows, parse, j);
    i := FactFor(rows, dims, j, rl, rv, ru, rt);
    assert BuildFacts(rows, parse) == FactTable(rows, dims);
  }

  /** Every utility row is the utility of some fact. */
  lemma EveryUtilityUsed(rows: seq<Row>, parse: Option<string> -> Coords)
    ensures forall k :: 1 <= k <= |DimsOf(rows, parse).util| ==> KeyUsed(BuildFacts(rows, parse), UtilityKey, k)
  {
    forall k | 1 <= k <= |DimsOf(rows, parse).util|
      ensures KeyUsed(BuildFacts(rows, parse), UtilityKey, k)
    {
      var i := UtilityRowUsed(rows, parse, k);
    }
  }

  /** A fact whose utility is utility row `k`: that of a registration the row was built from. */
  lemma UtilityRowUsed(rows: seq<Row>, parse: Option<string> -> Coords, k: nat) returns (i: nat)
    requires 1 <= k <= |DimsOf(rows, parse).util|
    ensures i < |BuildFacts(rows, parse)| && BuildFacts(rows, parse)[i].utilityId == Some(k)
  {
    var dims := DimsOf(rows, parse);
    assert dims.util == DedupAndKey(Column(rows, UtilityOf));
    var j := RowSource(rows, UtilityOf, k);
    var ru := dims.util[k - 1];
    var rl, rv, _, rt := OwnRows(rows, parse, j);
    i := FactFor(rows, dims, j, rl, rv, ru, rt);
    assert BuildFacts(rows, parse) == FactTable(rows, dims);
  }

  /** Every time row is the time of some fact. */
  lemma EveryTimeUsed(rows: seq<Row>, parse: Option<string> -> Coords)
    ensures forall k :: 1 <= k <= |DimsOf(rows, parse).time| ==> KeyUsed(BuildFacts(rows, parse), TimeKey, k)
  {
    forall k | 1 <= k <= |DimsOf(rows, parse).time|
      ensures KeyUsed(BuildFacts(rows, parse), TimeKey, k)
    {
      var i := TimeRowUsed(rows, parse, k);
    }
  }

  /** A fact whose time is time row `k`: that of a registration the row was built from. */
  lemma TimeRowUsed(rows: seq<Row>, parse: Option<string> -> Coords, k: nat) returns (i: nat)
    requires 1 <= k <= |DimsOf(rows, parse).time|
    ensures i < |BuildFacts(rows, parse)| && BuildFacts(rows, parse)[i].timeId == Some(k)
  {
    var dims := DimsOf(rows, parse);
    assert dims.time == DedupAndKey(Column(rows, TimeTupleOf));
    var j := RowSource(rows, TimeTupleOf, k);
    var rt := dims.time[k - 1];
    var rl, rv, ru, _ := OwnRows(rows, parse, j);
    i := FactFor(rows, dims, j, rl, rv, ru, rt);
    assert BuildFacts(rows, parse) == FactTable(rows, dims);
  }
}
