/** The cleaning stage as whole-frame functions: missing-value fills, categorical codes and
    derived columns. The `EVDataETL` methods that reassign the frame column by column are
    proved to compute exactly these functions. */
module Cleaning {
  import opened Wrappers
  import opened Records
  import opened Median

  // ---------------------------------------------------------------------------------------
  // Missing values

  /** `fillna('Unknown')` on one text cell. */
  function FillUnknown(v: Option<string>): Option<string> {
    Some(v.GetOr("Unknown"))
  }

  /** `fillna('Unknown')` on one cell of a numeric geographic column. */
  function FillUnknownCell(v: Option<Cell>): Option<Cell> {
    Some(v.GetOr(Str("Unknown")))
  }

  /** Row `r` after `frame[c] = frame[c].fillna('Unknown')`. */
  function FillText(r: Row, c: TextColumn): Row {
    WithText(r, c, FillUnknown(TextOf(r, c)))
  }

  function FillGeo(r: Row, c: GeoColumn): Row {
    WithGeo(r, c, FillUnknownCell(GeoOf(r, c)))
  }

  /** Row `r` after filling the text columns `cs` one after another: exactly the columns in `cs`
      are filled and nothing outside the text columns changes. */
  function FillTexts(r: Row, cs: seq<TextColumn>): (f: Row)
    ensures forall c :: TextOf(f, c) == if c in cs then FillUnknown(TextOf(r, c)) else TextOf(r, c)
    ensures NonText(f) == NonText(r)
  {
    if cs == [] then r
    else
      var p := FillTexts(r, cs[..|cs| - 1]);
      var c := cs[|cs| - 1];
      WithTextFrame(p, c, FillUnknown(TextOf(p, c)));
      assert forall d :: d in cs <==> d in cs[..|cs| - 1] || d == c;
      FillText(p, c)
  }

  /** Row `r` after filling the geographic columns `cs` one after another. */
  function FillGeos(r: Row, cs: seq<GeoColumn>): (f: Row)
    ensures forall c :: GeoOf(f, c) == if c in cs then FillUnknownCell(GeoOf(r, c)) else GeoOf(r, c)
    ensures NonGeo(f) == NonGeo(r)
  {
    if cs == [] then r
    else
      var p := FillGeos(r, cs[..|cs| - 1]);
      var c := cs[|cs| - 1];
      WithGeoFrame(p, c, FillUnknownCell(GeoOf(p, c)));
      assert forall d :: d in cs <==> d in cs[..|cs| - 1] || d == c;
      FillGeo(p, c)
  }

  /** The frame after `frame[c] = frame[c].fillna('Unknown')` for a text column. */
  function FillTextColumn(rows: seq<Row>, c: TextColumn): seq<Row> {
    seq(|rows|, j requires 0 <= j < |rows| => FillText(rows[j], c))
  }

  /** The frame after `frame[c] = frame[c].fillna('Unknown')` for a geographic column. */
  function FillGeoColumn(rows: seq<Row>, c: GeoColumn): seq<Row> {
    seq(|rows|, j requires 0 <= j < |rows| => FillGeo(rows[j], c))
  }

  /** `frame[c].isnull().sum()` for a text column: zero exactly when no row misses it. */
  function MissingTexts(rows: seq<Row>, c: TextColumn): (n: nat)
    ensures n <= |rows|
    ensures n == 0 <==> forall j :: 0 <= j < |rows| ==> TextOf(rows[j], c).Some?
  {
    if rows == [] then 0
    else
      assert forall j :: 1 <= j < |rows| ==> rows[j] == rows[1..][j - 1];
      (if TextOf(rows[0], c).None? then 1 else 0) + MissingTexts(rows[1..], c)
  }

  /** `frame[c].isnull().sum()` for a geographic column. */
  function MissingGeos(rows: seq<Row>, c: GeoColumn): (n: nat)
    ensures n <= |rows|
    ensures n == 0 <==> forall j :: 0 <= j < |rows| ==> GeoOf(rows[j], c).Some?
  {
    if rows == [] then 0
    else
      assert forall j :: 1 <= j < |rows| ==> rows[j] == rows[1..][j - 1];
      (if GeoOf(rows[0], c).None? then 1 else 0) + MissingGeos(rows[1..], c)
  }

  /** Filling a text cell that is present leaves the row as it is. */
  lemma FillTextPresent(r: Row, c: TextColumn)
    ensures TextOf(r, c).Some? ==> FillText(r, c) == r
  {
    WithTextFrame(r, c, TextOf(r, c));
  }

  /** Filling a geographic cell that is present leaves the row as it is. */
  lemma FillGeoPresent(r: Row, g: GeoColumn)
    ensures GeoOf(r, g).Some? ==> FillGeo(r, g) == r
  {
    WithGeoFrame(r, g, GeoOf(r, g));
  }

  /** The frame after filling the text columns `cs` one after another. */
  function FillTextsFrame(rows: seq<Row>, cs: seq<TextColumn>): seq<Row> {
    seq(|rows|, j requires 0 <= j < |rows| => FillTexts(rows[j], cs))
  }

  /** The frame after filling the geographic columns `cs` one after another. */
  function FillGeosFrame(rows: seq<Row>, cs: seq<GeoColumn>): seq<Row> {
    seq(|rows|, j requires 0 <= j < |rows| => FillGeos(rows[j], cs))
  }

  /** The frame after `fillna(fill)` on Electric Range. */
  function FillRangeColumn(rows: seq<Row>, fill: Option<real>): seq<Row> {
    seq(|rows|, j requires 0 <= j < |rows| => FillRange(rows[j], fill))
  }

  /** The frame after `fillna(0)` on Base MSRP. */
  function FillMsrpColumn(rows: seq<Row>): seq<Row> {
    seq(|rows|, j requires 0 <= j < |rows| => FillMsrp(rows[j]))
  }

  /** Filling no column leaves the frame as it is. */
  lemma FillNothing(rows: seq<Row>)
    ensures FillTextsFrame(rows, CategoricalColumns[..0]) == rows
    ensures FillGeosFrame(rows, GeoColumns[..0]) == rows
  {
    assert CategoricalColumns[..0] == [] && GeoColumns[..0] == [];
  }

  /** One more column of `cs` filled: what one pass of the categorical loop does, whether or
      not it finds a missing value to fill. */
  lemma FillTextsStep(orig: seq<Row>, cs: seq<TextColumn>, k: nat)
    requires k < |cs|
    ensures FillTextColumn(FillTextsFrame(orig, cs[..k]), cs[k]) == FillTextsFrame(orig, cs[..k + 1])
    ensures MissingTexts(FillTextsFrame(orig, cs[..k]), cs[k]) == 0 ==>
              FillTextsFrame(orig, cs[..k]) == FillTextsFrame(orig, cs[..k + 1])
  {
    var rows := FillTextsFrame(orig, cs[..k]);
    assert cs[..k + 1][..k] == cs[..k];
    forall j | 0 <= j < |orig| {
      FillTextPresent(rows[j], cs[k]);
    }
  }

  /** One more geographic column of `cs` filled. */
  lemma FillGeosStep(orig: seq<Row>, cs: seq<GeoColumn>, k: nat)
    requires k < |cs|
    ensures FillGeoColumn(FillGeosFrame(orig, cs[..k]), cs[k]) == FillGeosFrame(orig, cs[..k + 1])
    ensures MissingGeos(FillGeosFrame(orig, cs[..k]), cs[k]) == 0 ==>
              FillGeosFrame(orig, cs[..k]) == FillGeosFrame(orig, cs[..k + 1])
  {
    var rows := FillGeosFrame(orig, cs[..k]);
    assert cs[..k + 1][..k] == cs[..k];
    forall j | 0 <= j < |orig| {
      FillGeoPresent(rows[j], cs[k]);
    }
  }

  /** The column-by-column fills in the order `_handle_missing_values` runs them give
      `HandleMissingValues`. */
  lemma FillsInOrder(orig: seq<Row>)
    ensures var texts := FillTextsFrame(orig, CategoricalColumns[..|CategoricalColumns|]);
            var numeric := FillMsrpColumn(FillRangeColumn(texts, RangeFill(texts)));
            FillGeosFrame(numeric, GeoColumns[..|GeoColumns|]) == HandleMissingValues(orig)
  {
    assert CategoricalColumns[..|CategoricalColumns|] == CategoricalColumns;
    assert GeoColumns[..|GeoColumns|] == GeoColumns;
    PresentRangesSame(FillTextsFrame(orig, CategoricalColumns), orig);
  }

  /** The Electric Range fill depends on the Electric Range column alone. */
  lemma {:induction false} PresentRangesSame(a: seq<Row>, b: seq<Row>)
    requires |a| == |b| && forall j :: 0 <= j < |a| ==> a[j].electricRange == b[j].electricRange
    ensures PresentRanges(a) == PresentRanges(b)
    decreases |a|
  {
    if a != [] {
      PresentRangesSame(a[1..], b[1..]);
    }
  }

  /** The present Electric Range values of the frame, in row order. */
  function PresentRanges(rows: seq<Row>): (xs: seq<real>)
    ensures xs == [] <==> forall j :: 0 <= j < |rows| ==> rows[j].electricRange.None?
  {
    if rows == [] then []
    else
      var rest := PresentRanges(rows[1..]);
      assert forall j :: 1 <= j < |rows| ==> rows[j] == rows[1..][j - 1];
      (if rows[0].electricRange.Some? then [rows[0].electricRange.value] else []) + rest
  }

  /** The rows whose Electric Range is present and equal to `x`. */
  ghost function RowsWithRange(rows: seq<Row>, x: real): set<int> {
    set j | 0 <= j < |rows| && rows[j].electricRange == Some(x)
  }

  /** The present values of a frame put after another are the two frames' present values in turn. */
  lemma {:induction false} PresentRangesAppend(a: seq<Row>, b: seq<Row>)
    ensures PresentRanges(a + b) == PresentRanges(a) + PresentRanges(b)
    decreases |a|
  {
    if a == [] {
      assert a + b == b;
    } else {
      var head := if a[0].electricRange.Some? then [a[0].electricRange.value] else [];
      assert (a + b)[0] == a[0];
      assert (a + b)[1..] == a[1..] + b;
      assert PresentRanges(a) == head + PresentRanges(a[1..]);
      assert PresentRanges(a + b) == head + PresentRanges(a[1..] + b);
      PresentRangesAppend(a[1..], b);
    }
  }

  /** The present Electric Range values are exactly the column's non-missing cells: each value
      occurs as many times as there are rows holding it. With `MedianOrderIndependent` this fixes
      the median `fillna` uses. */
  lemma {:induction false} PresentRangesCount(rows: seq<Row>, x: real)
    ensures multiset(PresentRanges(rows))[x] == |RowsWithRange(rows, x)|
    decreases |rows|
  {
    if rows == [] {
      assert RowsWithRange(rows, x) == {};
    } else {
      var n := |rows| - 1;
      PresentRangesCount(rows[..n], x);
      PresentRangesLast(rows);
      RowsWithRangeLast(rows, x);
    }
  }

  /** The present values of a non-empty frame: those of all rows but the last, then the last one's. */
  lemma PresentRangesLast(rows: seq<Row>)
    requires rows != []
    ensures PresentRanges(rows) == PresentRanges(rows[..|rows| - 1])
              + (if rows[|rows| - 1].electricRange.Some? then [rows[|rows| - 1].electricRange.value] else [])
  {
    var n := |rows| - 1;
    assert rows == rows[..n] + [rows[n]];
    PresentRangesAppend(rows[..n], [rows[n]]);
    assert PresentRanges([rows[n]])
           == (if rows[n].electricRange.Some? then [rows[n].electricRange.value] else []) + PresentRanges([]);
  }

  /** The rows holding `x`: those among all but the last, and the last one if it holds `x`. */
  lemma RowsWithRangeLast(rows: seq<Row>, x: real)
    requires rows != []
    ensures |RowsWithRange(rows, x)| == |RowsWithRange(rows[..|rows| - 1], x)|
              + (if rows[|rows| - 1].electricRange == Some(x) then 1 else 0)
  {
    var n := |rows| - 1;
    var a, b := RowsWithRange(rows, x), RowsWithRange(rows[..n], x);
    if rows[n].electricRange == Some(x) {
      assert a == b + {n};
    } else {
      assert a == b;
    }
  }

  /** What the Electric Range column is filled with: its median, NaN when nothing is present. */
  function RangeFill(rows: seq<Row>): Option<real> {
    MedianOf(PresentRanges(rows))
  }

  /** Row `r` after `fillna(fill)` on Electric Range. */
  function FillRange(r: Row, fill: Option<real>): Row {
    r.(electricRange := if r.electricRange.Some? then r.electricRange else fill)
  }

  /** Row `r` after `fillna(0)` on Base MSRP. */
  function FillMsrp(r: Row): Row {
    r.(baseMsrp := Some(r.baseMsrp.GetOr(0)))
  }

  /** One row after all the fills, given the batch's Electric Range fill. */
  function NormalizeRow(r: Row, rangeFill: Option<real>): Row {
    FillGeos(FillMsrp(FillRange(FillTexts(r, CategoricalColumns), rangeFill)), GeoColumns)
  }

  /** Everything in a row that the fills must leave alone. */
  function Unfilled(r: Row): Row {
    NonGeo(NonText(r)).(electricRange := None, baseMsrp := None)
  }

  lemma NumericFillsKeepColumns(t: Row, fill: Option<real>)
    ensures forall c :: TextOf(FillMsrp(FillRange(t, fill)), c) == TextOf(t, c)
    ensures forall g :: GeoOf(FillMsrp(FillRange(t, fill)), g) == GeoOf(t, g)
  {
    var b := FillMsrp(FillRange(t, fill));
    forall c ensures TextOf(b, c) == TextOf(t, c) {
      match c
      case Vin => case County => case City => case State => case Make => case Model =>
      case ElectricVehicleType => case CafvEligibility => case VehicleLocation => case ElectricUtility =>
    }
    forall g ensures GeoOf(b, g) == GeoOf(t, g) {
      match g
      case PostalCode => case LegislativeDistrict => case CensusTract =>
    }
  }

  lemma TextOfNonGeo(x: Row, y: Row)
    requires NonGeo(x) == NonGeo(y)
    ensures forall c :: TextOf(x, c) == TextOf(y, c)
  {
    forall c ensures TextOf(x, c) == TextOf(y, c) {
      assert TextOf(x, c) == TextOf(NonGeo(x), c);
      assert TextOf(y, c) == TextOf(NonGeo(y), c);
    }
  }

  lemma GeoOfNonText(x: Row, y: Row)
    requires NonText(x) == NonText(y)
    ensures forall g :: GeoOf(x, g) == GeoOf(y, g)
  {
    forall g ensures GeoOf(x, g) == GeoOf(y, g) {
      assert GeoOf(x, g) == GeoOf(NonText(x), g);
      assert GeoOf(y, g) == GeoOf(NonText(y), g);
    }
  }

  /** What the fills do to one row. */
  lemma NormalizeRowProperties(r: Row, fill: Option<real>)
    ensures forall c :: TextOf(NormalizeRow(r, fill), c)
              == if c in CategoricalColumns && TextOf(r, c).None? then Some("Unknown") else TextOf(r, c)
    ensures forall g :: GeoOf(NormalizeRow(r, fill), g)
              == if GeoOf(r, g).None? then Some(Str("Unknown")) else GeoOf(r, g)
    ensures NormalizeRow(r, fill).baseMsrp == if r.baseMsrp.None? then Some(0) else r.baseMsrp
    ensures NormalizeRow(r, fill).electricRange == if r.electricRange.None? then fill else r.electricRange
    ensures Unfilled(NormalizeRow(r, fill)) == Unfilled(r)
  {
    var t := FillTexts(r, CategoricalColumns);
    var b := FillMsrp(FillRange(t, fill));
    var n := FillGeos(b, GeoColumns);
    assert n == NormalizeRow(r, fill);
    NumericFillsKeepColumns(t, fill);
    TextOfNonGeo(n, b);
    GeoOfNonText(t, r);
    assert NonText(t) == NonText(r);
    assert NonGeo(n) == NonGeo(b);
    assert n.baseMsrp == b.baseMsrp && n.electricRange == b.electricRange;
    assert t.baseMsrp == r.baseMsrp && t.electricRange == r.electricRange;
    assert Unfilled(b) == Unfilled(t);
    assert Unfilled(n) == Unfilled(b);
    assert Unfilled(t) == Unfilled(r);
  }

  /** `_handle_missing_values` on a whole frame. Every row is kept; in the categorical and
      geographic columns a missing value becomes "Unknown" and a present one is kept; a missing
      Base MSRP becomes 0; a missing Electric Range becomes the median of the present ones (None
      if there is none); all other columns, State, Model Year and VIN included, are untouched. */
  function HandleMissingValues(rows: seq<Row>): (out: seq<Row>)
    ensures |out| == |rows|
    ensures forall j, c :: 0 <= j < |rows| ==>
              TextOf(out[j], c) == if c in CategoricalColumns && TextOf(rows[j], c).None?
                                   then Some("Unknown") else TextOf(rows[j], c)
    ensures forall j, g :: 0 <= j < |rows| ==>
              GeoOf(out[j], g) == if GeoOf(rows[j], g).None? then Some(Str("Unknown")) else GeoOf(rows[j], g)
    ensures forall j :: 0 <= j < |rows| ==>
              out[j].baseMsrp == if rows[j].baseMsrp.None? then Some(0) else rows[j].baseMsrp
    ensures forall j :: 0 <= j < |rows| ==>
              out[j].electricRange == if rows[j].electricRange.None? then RangeFill(rows) else rows[j].electricRange
    ensures forall j :: 0 <= j < |rows| ==> Unfilled(out[j]) == Unfilled(rows[j])
  {
    var fill := RangeFill(rows);
    var out := seq(|rows|, j requires 0 <= j < |rows| => NormalizeRow(rows[j], fill));
    forall j | 0 <= j < |rows|
      ensures forall c :: TextOf(out[j], c) == if c in CategoricalColumns && TextOf(rows[j], c).None?
                                               then Some("Unknown") else TextOf(rows[j], c)
      ensures forall g :: GeoOf(out[j], g) == if GeoOf(rows[j], g).None? then Some(Str("Unknown")) else GeoOf(rows[j], g)
      ensures out[j].baseMsrp == if rows[j].baseMsrp.None? then Some(0) else rows[j].baseMsrp
      ensures out[j].electricRange == if rows[j].electricRange.None? then fill else rows[j].electricRange
      ensures Unfilled(out[j]) == Unfilled(rows[j])
    {
      assert out[j] == NormalizeRow(rows[j], fill);
      NormalizeRowProperties(rows[j], fill);
    }
    out
  }

  /** A missing Electric Range stays missing exactly when no row of the batch has one. */
  lemma RangeStaysMissing(rows: seq<Row>, j: int)
    requires 0 <= j < |rows|
    ensures HandleMissingValues(rows)[j].electricRange.None?
        <==> forall k :: 0 <= k < |rows| ==> rows[k].electricRange.None?
  {
  }

  // ---------------------------------------------------------------------------------------
  // Categorical codes

  const BEV := "Battery Electric Vehicle (BEV)"
  const PHEV := "Plug-in Hybrid Electric Vehicle (PHEV)"
  const CafvEligible := "Clean Alternative Fuel Vehicle Eligible"
  const CafvLowRange := "Not eligible due to low battery range"
  const CafvNotResearched := "Eligibility unknown as battery range has not been researched"

  const EvTypeMapping: map<string, int> := map[BEV := 1, PHEV := 2, "Unknown" := 0]
  const CafvMapping: map<string, int> :=
    map[CafvEligible := 1, CafvLowRange := 2, CafvNotResearched := 3, "Unknown" := 0]

  /** `.map(mapping).fillna(0)` on one cell: the code of a listed value, 0 for anything else. */
  function Encode(v: Option<string>, mapping: map<string, int>): int {
    if v.Some? && v.value in mapping then mapping[v.value] else 0
  }

  /** EV_Type_Code: 1 for exactly the BEV label, 2 for exactly the PHEV label, 0 otherwise. */
  function EvTypeCode(evType: Option<string>): (code: int)
    ensures 0 <= code <= 2
    ensures code == 1 <==> evType == Some(BEV)
    ensures code == 2 <==> evType == Some(PHEV)
  {
    Encode(evType, EvTypeMapping)
  }

  /** CAFV_Code: 1, 2, 3 for exactly the three listed eligibility labels, 0 otherwise. */
  function CafvCode(eligibility: Option<string>): (code: int)
    ensures 0 <= code <= 3
    ensures code == 1 <==> eligibility == Some(CafvEligible)
    ensures code == 2 <==> eligibility == Some(CafvLowRange)
    ensures code == 3 <==> eligibility == Some(CafvNotResearched)
  {
    Encode(eligibility, CafvMapping)
  }

  /** The frame after `_encode_categorical_variables`. */
  function EncodeCategoricalVariables(rows: seq<Row>): (out: seq<Row>)
    ensures |out| == |rows|
    ensures forall j :: 0 <= j < |rows| ==>
              out[j] == rows[j].(evTypeCode := Some(EvTypeCode(rows[j].evType)),
                                 cafvCode := Some(CafvCode(rows[j].cafvEligibility)))
  {
    var withEv := seq(|rows|, j requires 0 <= j < |rows| =>
                        rows[j].(evTypeCode := Some(EvTypeCode(rows[j].evType))));
    seq(|withEv|, j requires 0 <= j < |withEv| =>
          withEv[j].(cafvCode := Some(CafvCode(withEv[j].cafvEligibility))))
  }

  // ---------------------------------------------------------------------------------------
  // Derived columns

  /** Model_Decade: `(year // 10) * 10`. Dafny's `/` by the positive 10 floors like Python's `//`. */
  function Decade(year: int): (d: int)
    ensures d % 10 == 0 && d <= year < d + 10
  {
    (year / 10) * 10
  }

  /** `pd.cut` accepts the bins [0, 2015, 2020, currentYear + 1] only when they strictly increase. */
  predicate BinsIncrease(currentYear: int) {
    2020 < currentYear + 1
  }

  /** Year_Category: `pd.cut(year, bins=[0, 2015, 2020, currentYear + 1], include_lowest=True)`
      with right-closed bins [0, 2015], (2015, 2020], (2020, currentYear + 1]; a missing year or one
      outside [0, currentYear + 1] gets no category. */
  function YearCategoryOf(year: Option<int>, currentYear: int): (cat: Option<YearCategory>)
    requires BinsIncrease(currentYear)
    ensures cat == Some(Pre2015) <==> year.Some? && 0 <= year.value <= 2015
    ensures cat == Some(From2015To2020) <==> year.Some? && 2015 < year.value <= 2020
    ensures cat == Some(From2021) <==> year.Some? && 2020 < year.value <= currentYear + 1
  {
    if year.None? || year.value < 0 || currentYear + 1 < year.value then None
    else if year.value <= 2015 then Some(Pre2015)
    else if year.value <= 2020 then Some(From2015To2020)
    else Some(From2021)
  }

  /** `hexdigest()[:10]`: at most the first ten characters of the digest. */
  function Prefix10(s: string): (p: string)
    ensures p <= s
    ensures |p| == if |s| < 10 then |s| else 10
  {
    if |s| <= 10 then s else s[..10]
  }

  /** VIN_Hash: "Unknown" for a missing VIN, otherwise the first ten characters of the VIN's
      MD5 hex digest (`md5Hex` stands for the digest, which is not modelled). */
  function VinHash(vin: Option<string>, md5Hex: string -> string): (h: string)
    ensures vin.None? ==> h == "Unknown"
    ensures vin.Some? ==> h <= md5Hex(vin.value)
    ensures vin.Some? ==> |h| == if |md5Hex(vin.value)| < 10 then |md5Hex(vin.value)| else 10
  {
    if vin.Some? then Prefix10(md5Hex(vin.value)) else "Unknown"
  }

  /** The frame after the Model_Decade column is written (NaN // 10 stays NaN). */
  function AddModelDecade(rows: seq<Row>): seq<Row> {
    seq(|rows|, j requires 0 <= j < |rows| =>
          rows[j].(modelDecade := if rows[j].modelYear.Some? then Some(Decade(rows[j].modelYear.value)) else None))
  }

  /** The frame after the Year_Category column is written. */
  function AddYearCategory(rows: seq<Row>, currentYear: int): seq<Row>
    requires BinsIncrease(currentYear)
  {
    seq(|rows|, j requires 0 <= j < |rows| =>
          rows[j].(yearCategory := YearCategoryOf(rows[j].modelYear, currentYear)))
  }

  /** The frame after the VIN_Hash column is written. */
  function AddVinHash(rows: seq<Row>, md5Hex: string -> string): seq<Row> {
    seq(|rows|, j requires 0 <= j < |rows| => rows[j].(vinHash := Some(VinHash(rows[j].vin, md5Hex))))
  }

  /** The frame `clean_and_transform` leaves when `pd.cut` rejects the bins: fills, codes and
      Model_Decade written, Year_Category and VIN_Hash not. */
  function PartiallyCleaned(rows: seq<Row>): seq<Row> {
    AddModelDecade(EncodeCategoricalVariables(HandleMissingValues(rows)))
  }

  /** The frame `clean_and_transform` produces. */
  function Cleaned(rows: seq<Row>, currentYear: int, md5Hex: string -> string): seq<Row>
    requires BinsIncrease(currentYear)
  {
    AddVinHash(AddYearCategory(PartiallyCleaned(rows), currentYear), md5Hex)
  }

  /** A row as the cleaning stage leaves it: the categorical and geographic columns and Base
      MSRP hold a value, the codes are in range and agree with their labels, and the derived
      time columns agree with Model Year. */
  ghost predicate CleanRow(r: Row, currentYear: int)
    requires BinsIncrease(currentYear)
  {
    && (forall c :: c in CategoricalColumns ==> TextOf(r, c).Some?)
    && (forall g :: GeoOf(r, g).Some?)
    && r.baseMsrp.Some?
    && r.evTypeCode == Some(EvTypeCode(r.evType))
    && r.cafvCode == Some(CafvCode(r.cafvEligibility))
    && (r.modelYear.None? ==> r.modelDecade.None?)
    && (r.modelYear.Some? ==> r.modelDecade == Some(Decade(r.modelYear.value)))
    && r.yearCategory == YearCategoryOf(r.modelYear, currentYear)
    && r.vinHash.Some?
  }

  /** Row `j` of the cleaned frame is row `j` of the filled frame with the five added columns. */
  lemma CleanedRowIs(rows: seq<Row>, currentYear: int, md5Hex: string -> string, j: int)
    requires BinsIncrease(currentYear) && 0 <= j < |rows|
    ensures |Cleaned(rows, currentYear, md5Hex)| == |rows|
    ensures var h := HandleMissingValues(rows)[j];
            Cleaned(rows, currentYear, md5Hex)[j]
            == h.(evTypeCode := Some(EvTypeCode(h.evType)), cafvCode := Some(CafvCode(h.cafvEligibility)),
                  modelDecade := if h.modelYear.Some? then Some(Decade(h.modelYear.value)) else None,
                  yearCategory := YearCategoryOf(h.modelYear, currentYear),
                  vinHash := Some(VinHash(h.vin, md5Hex)))
  {
  }

  /** Cleaning keeps every row, row `j` of the result satisfies `CleanRow`, and the columns the
      cleaning stage does not touch (Model Year, State, VIN, Vehicle Location, DOL Vehicle ID)
      keep their values. */
  lemma CleanedProperties(rows: seq<Row>, currentYear: int, md5Hex: string -> string)
    requires BinsIncrease(currentYear)
    ensures |Cleaned(rows, currentYear, md5Hex)| == |rows|
    ensures forall j :: 0 <= j < |rows| ==> CleanRow(Cleaned(rows, currentYear, md5Hex)[j], currentYear)
    ensures forall j :: 0 <= j < |rows| ==>
              var r := Cleaned(rows, currentYear, md5Hex)[j];
              && r.modelYear == rows[j].modelYear && r.state == rows[j].state
              && r.vin == rows[j].vin && r.vehicleLocation == rows[j].vehicleLocation
              && r.dolVehicleId == rows[j].dolVehicleId
              && r.vinHash == Some(VinHash(rows[j].vin, md5Hex))
  {
    var h := HandleMissingValues(rows);
    var out := Cleaned(rows, currentYear, md5Hex);
    assert |out| == |rows|;
    forall j | 0 <= j < |rows|
      ensures CleanRow(out[j], currentYear)
      ensures out[j].modelYear == rows[j].modelYear && out[j].state == rows[j].state
      ensures out[j].vin == rows[j].vin && out[j].vehicleLocation == rows[j].vehicleLocation
      ensures out[j].dolVehicleId == rows[j].dolVehicleId
      ensures out[j].vinHash == Some(VinHash(rows[j].vin, md5Hex))
    {
      CleanedRowIs(rows, currentYear, md5Hex, j);
      CleanRowOf(rows[j], h[j], out[j], currentYear, md5Hex);
    }
  }

  lemma CleanRowOf(r: Row, h: Row, c: Row, currentYear: int, md5Hex: string -> string)
    requires BinsIncrease(currentYear)
    requires forall t :: TextOf(h, t) == if t in CategoricalColumns && TextOf(r, t).None?
                                        then Some("Unknown") else TextOf(r, t)
    requires forall g :: GeoOf(h, g) == if GeoOf(r, g).None? then Some(Str("Unknown")) else GeoOf(r, g)
    requires h.baseMsrp == if r.baseMsrp.None? then Some(0) else r.baseMsrp
    requires Unfilled(h) == Unfilled(r)
    requires c == h.(evTypeCode := Some(EvTypeCode(h.evType)), cafvCode := Some(CafvCode(h.cafvEligibility)),
                     modelDecade := if h.modelYear.Some? then Some(Decade(h.modelYear.value)) else None,
                     yearCategory := YearCategoryOf(h.modelYear, currentYear),
                     vinHash := Some(VinHash(h.vin, md5Hex)))
    ensures CleanRow(c, currentYear)
    ensures c.modelYear == r.modelYear && c.state == r.state && c.vin == r.vin
    ensures c.vehicleLocation == r.vehicleLocation && c.dolVehicleId == r.dolVehicleId
    ensures c.vinHash == Some(VinHash(r.vin, md5Hex))
  {
    assert Unfilled(h).modelYear == h.modelYear && Unfilled(r).modelYear == r.modelYear;
    assert Unfilled(h).dolVehicleId == h.dolVehicleId && Unfilled(r).dolVehicleId == r.dolVehicleId;
    assert TextOf(h, State) == TextOf(r, State);
    assert TextOf(h, Vin) == TextOf(r, Vin);
    assert TextOf(h, VehicleLocation) == TextOf(r, VehicleLocation);
    forall t | t in CategoricalColumns ensures TextOf(c, t).Some? {
      assert TextOf(c, t) == TextOf(h, t);
    }
    forall g ensures GeoOf(c, g).Some? {
      assert GeoOf(c, g) == GeoOf(h, g);
    }
  }
}
