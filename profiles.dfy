/**
 * The per-variable settings of Plot_all.py: which dataset tags are drawn,
 * the folder and grid each one uses, the transform applied to raw cells,
 * and the class boundaries of the factor-of-safety (FS3D) map.
 */
module Profiles {
  import opened Wrappers

  /** The variables in `variable_list`. */
  datatype Variable = R | W | SM | FS3D | PF | FVolume

  /** `variable_list`, in its order. */
  const VariableList: seq<string> := ["R", "W", "SM", "FS3D", "PF", "FVolume"]

  /** The output folders, created and cleared before plotting and visited
      in this order by the video step. */
  const Folders: seq<string> := ["R", "W", "SM", "FS", "PF", "Volume"]

  /** The tags drawn on the hydrological grid (`["R", "W", "SM"]`). */
  const HydroTags: seq<string> := ["R", "W", "SM"]

  /** The tag a dataset name carries for each variable. */
  function Tag(v: Variable): string {
    match v
    case R => "R"
    case W => "W"
    case SM => "SM"
    case FS3D => "FS3D"
    case PF => "PF"
    case FVolume => "FVolume"
  }

  /** `variable_tag in variable_list`, with the variable it names. */
  function TagOf(tag: string): (r: Option<Variable>)
    ensures r.Some? <==> tag in VariableList
    ensures r.Some? ==> Tag(r.value) == tag
  {
    if tag == "R" then Some(R)
    else if tag == "W" then Some(W)
    else if tag == "SM" then Some(SM)
    else if tag == "FS3D" then Some(FS3D)
    else if tag == "PF" then Some(PF)
    else if tag == "FVolume" then Some(FVolume)
    else None
  }

  /** Every variable's tag is recognised as that variable. */
  lemma TagRoundTrip(v: Variable)
    ensures TagOf(Tag(v)) == Some(v)
  {
  }

  /** The folder each `elif` branch assigns. */
  function Folder(v: Variable): string {
    match v
    case R => "R"
    case W => "W"
    case SM => "SM"
    case FS3D => "FS"
    case PF => "PF"
    case FVolume => "Volume"
  }

  /** The branches write into exactly the folders that are prepared and
      later turned into videos, and no two variables share a folder. */
  lemma FoldersAreTheVideoFolders()
    ensures forall v :: Folder(v) in Folders
    ensures forall f :: f in Folders ==> exists v :: Folder(v) == f
    ensures forall v, u :: Folder(v) == Folder(u) ==> v == u
  {
    assert Folder(R) == Folders[0] && Folder(W) == Folders[1] && Folder(SM) == Folders[2];
    assert Folder(FS3D) == Folders[3] && Folder(PF) == Folders[4] && Folder(FVolume) == Folders[5];
  }

  datatype Grid = Hydro | Land

  /** The extent each branch hands to `imshow`. */
  function GridOf(v: Variable): (r: Grid)
    ensures r == Hydro <==> Tag(v) in HydroTags
  {
    match v
    case R => Hydro
    case W => Hydro
    case SM => Hydro
    case FS3D => Land
    case PF => Land
    case FVolume => Land
  }

  /** The raw value that marks a cell without data. */
  const NoData: int := -9999

  /** What an R cell whose scaled value is exactly zero is drawn as. */
  const Epsilon: real := 0.000001

  /** A cell after the transform: missing (NaN) or a value. */
  datatype Cell = Missing | Value(x: real)

  /** The transform of one raw cell: the sentinel becomes missing, any other
      raw value is divided by 100, and for R a zero then becomes `Epsilon`
      so that the logarithmic colour scale can draw it. */
  function CellValue(v: Variable, raw: int): (r: Cell)
    ensures r.Missing? <==> raw == NoData
    ensures r.Value? && (v != R || raw != 0) ==> r.x * 100.0 == raw as real
    ensures r.Value? && v == R && raw == 0 ==> r.x == Epsilon
  {
    if raw == NoData then Missing
    else
      var x := raw as real / 100.0;
      if v == R && x == 0.0 then Value(Epsilon) else Value(x)
  }

  /** R never shows an exact zero; the other variables keep it. */
  lemma ZeroOnlyOutsideR(v: Variable, raw: int)
    requires CellValue(v, raw) == Value(0.0)
    ensures v != R && raw == 0
  {
  }

  /** `m[m == NODATA] = nan`, in place. */
  method MarkMissing(m: array<Cell>)
    modifies m
    ensures forall i :: 0 <= i < m.Length ==>
      m[i] == (if old(m[i]) == Value(NoData as real) then Missing else old(m[i]))
  {
    var i := 0;
    while i < m.Length
      invariant 0 <= i <= m.Length
      invariant forall k :: 0 <= k < i ==>
        m[k] == (if old(m[k]) == Value(NoData as real) then Missing else old(m[k]))
      invariant forall k :: i <= k < m.Length ==> m[k] == old(m[k])
    {
      if m[i] == Value(NoData as real) {
        m[i] := Missing;
      }
      i := i + 1;
    }
  }

  /** One cell divided by 100; NaN stays NaN. */
  function Hundredth(c: Cell): Cell {
    match c
    case Missing => Missing
    case Value(x) => Value(x / 100.0)
  }

  /** `m / 100`: a new array, the old one untouched. */
  method Divided(m: array<Cell>) returns (d: array<Cell>)
    ensures fresh(d) && d.Length == m.Length
    ensures forall i :: 0 <= i < m.Length ==> d[i] == Hundredth(m[i])
  {
    d := new Cell[m.Length];
    var i := 0;
    while i < m.Length
      invariant 0 <= i <= m.Length
      invariant forall k :: 0 <= k < i ==> d[k] == Hundredth(m[k])
    {
      d[i] := Hundredth(m[i]);
      i := i + 1;
    }
  }

  /** `m[m == 0] = 0.000001`, in place. */
  method ReplaceZeros(m: array<Cell>)
    modifies m
    ensures forall i :: 0 <= i < m.Length ==>
      m[i] == (if old(m[i]) == Value(0.0) then Value(Epsilon) else old(m[i]))
  {
    var i := 0;
    while i < m.Length
      invariant 0 <= i <= m.Length
      invariant forall k :: 0 <= k < i ==>
        m[k] == (if old(m[k]) == Value(0.0) then Value(Epsilon) else old(m[k]))
      invariant forall k :: i <= k < m.Length ==> m[k] == old(m[k])
    {
      if m[i] == Value(0.0) {
        m[i] := Value(Epsilon);
      }
      i := i + 1;
    }
  }

  /** The matrix as it is drawn: the raw cells converted, the sentinel
      marked, the whole divided by 100 and, for R, zeros replaced. Each cell
      ends as `CellValue` says. */
  method LoadMatrix(v: Variable, raw: seq<int>) returns (m: array<Cell>)
    ensures fresh(m) && m.Length == |raw|
    ensures forall i :: 0 <= i < |raw| ==> m[i] == CellValue(v, raw[i])
  {
    var a := FromRaw(raw);
    MarkMissing(a);
    m := Divided(a);
    if v == R {
      ReplaceZeros(m);
    }
    forall i | 0 <= i < |raw|
      ensures m[i] == CellValue(v, raw[i])
    {
      if raw[i] != NoData {
        CellScaled(v, raw[i]);
      }
    }
  }

  /** A cell with data is divided by 100, and for R a zero then becomes
      `Epsilon`. */
  lemma CellScaled(v: Variable, raw: int)
    requires raw != NoData
    ensures Value(raw as real) != Value(NoData as real)
    ensures CellValue(v, raw) == (if v == R && raw == 0 then Value(Epsilon) else Value(raw as real / 100.0))
    ensures raw as real / 100.0 == 0.0 <==> raw == 0
  {
    assert raw as real != NoData as real;
  }

  /** `data[:]`: the raw cells as a new array of values. */
  method FromRaw(raw: seq<int>) returns (a: array<Cell>)
    ensures fresh(a) && a.Length == |raw|
    ensures forall i :: 0 <= i < |raw| ==> a[i] == Value(raw[i] as real)
  {
    a := new Cell[|raw|];
    var i := 0;
    while i < |raw|
      invariant 0 <= i <= |raw|
      invariant forall k :: 0 <= k < i ==> a[k] == Value(raw[k] as real)
    {
      a[i] := Value(raw[i] as real);
      i := i + 1;
    }
  }

  /** Where a value falls among increasing class boundaries. */
  datatype Class = Under | Bucket(index: nat) | Over

  predicate Increasing(bounds: seq<real>) {
    forall i, j :: 0 <= i < j < |bounds| ==> bounds[i] < bounds[j]
  }

  /** The first bucket at or after `i` whose upper bound exceeds `v`. */
  function Locate(bounds: seq<real>, v: real, i: nat): (r: Class)
    requires i < |bounds| && bounds[i] <= v
    ensures r.Bucket? ==> i <= r.index < |bounds| - 1 && bounds[r.index] <= v < bounds[r.index + 1]
    ensures r == Over <==> forall k :: i < k < |bounds| ==> bounds[k] <= v
    ensures r.Under? == false
    decreases |bounds| - i
  {
    if i == |bounds| - 1 then Over
    else if v < bounds[i + 1] then Bucket(i)
    else Locate(bounds, v, i + 1)
  }

  /** The class of `v` for increasing boundaries: below the first, in the
      bucket `[bounds[i], bounds[i+1])`, or at or above the last (the
      colour bar's `extend="max"` end). */
  function Classify(bounds: seq<real>, v: real): (r: Class)
    requires |bounds| >= 2 && Increasing(bounds)
    ensures r == Under <==> v < bounds[0]
    ensures r == Over <==> bounds[|bounds| - 1] <= v
    ensures forall i :: 0 <= i < |bounds| - 1 ==>
      (r == Bucket(i) <==> bounds[i] <= v < bounds[i + 1])
  {
    if v < bounds[0] then Under else Locate(bounds, v, 0)
  }

  /** `bounds_FS`. */
  const FsBounds: seq<real> := [0.0, 0.8, 1.0, 1.2, 1.4, 2.0, 3.0]

  /** The same boundaries on the raw integer scale: each is the matching
      entry of `FsBounds` times 100. */
  const FsRawBounds: seq<real> := [0.0, 80.0, 100.0, 120.0, 140.0, 200.0, 300.0]

  lemma FsBoundsIncreasing()
    ensures Increasing(FsBounds) && Increasing(FsRawBounds)
  {
  }

  /** The class depends on nothing but how the value compares with each
      boundary: two boundary lists that a pair of values meets in the same
      way give those values the same class. */
  lemma ClassByComparisons(b1: seq<real>, v1: real, b2: seq<real>, v2: real)
    requires |b1| >= 2 && Increasing(b1) && |b2| == |b1| && Increasing(b2)
    requires forall i :: 0 <= i < |b1| ==> (b1[i] <= v1 <==> b2[i] <= v2)
    ensures Classify(b1, v1) == Classify(b2, v2)
  {
    var r1 := Classify(b1, v1);
    var r2 := Classify(b2, v2);
    assert r1 == Under <==> r2 == Under;
    assert r1 == Over <==> r2 == Over;
    if r1.Bucket? {
      assert b1[r1.index] <= v1 && !(b1[r1.index + 1] <= v1);
      assert r2 == Bucket(r1.index);
    } else {
      assert !r2.Bucket?;
    }
  }

  /** The class of a raw FS3D cell, compared against the integer
      thresholds 0, 80, 100, 120, 140, 200 and 300. */
  function ClassifyRaw(raw: int): Class {
    FsBoundsIncreasing();
    Classify(FsRawBounds, raw as real)
  }

  /** Classifying the drawn value over `bounds_FS` is classifying the raw
      cell over the integer thresholds. */
  lemma RawClassAgrees(raw: int)
    requires raw != NoData
    ensures CellValue(FS3D, raw).Value?
    ensures Classify(FsBounds, CellValue(FS3D, raw).x) == ClassifyRaw(raw)
  {
    var x := CellValue(FS3D, raw).x;
    var v := raw as real;
    assert x * 100.0 == v;
    FsBoundsIncreasing();
    forall i | 0 <= i < |FsBounds| ensures FsBounds[i] <= x <==> FsRawBounds[i] <= v {
      assert FsRawBounds[i] == FsBounds[i] * 100.0;
    }
    ClassByComparisons(FsBounds, x, FsRawBounds, v);
  }

  /** A safety factor of 3 or more falls in the extended top class. */
  lemma FsTopClass()
    ensures ClassifyRaw(300) == Over && ClassifyRaw(1000) == Over
  {
    FsBoundsIncreasing();
  }

  /** Just below 3 is the last bucket, 0 the first, and a negative factor
      lies under the scale. */
  lemma FsEdgeBuckets()
    ensures ClassifyRaw(299) == Bucket(5) && ClassifyRaw(0) == Bucket(0)
    ensures ClassifyRaw(-1) == Under
  {
    FsBoundsIncreasing();
  }
}
