/**
  The angle derivation of ETL.create_angles: the six angle definitions, the
  angle of one definition in one frame, the per-subject loop that collects
  one list per definition, and the columns V1..V6 attached to the frames.
*/
module Angles {
  import opened Wrappers
  import opened Tables
  import opened Geometry
  import opened Catalogue

  /** An angle definition `name: [a, vertex, c]`: the angle at vertex between the rays to a and c. */
  datatype AngleDef = AngleDef(name: string, a: string, vertex: string, c: string)

  /** The definitions in the order of the `self.angles` dict. */
  function AngleTable(): seq<AngleDef>
  {
    [ AngleDef("V1", "upper_chest", "nose", "right_wrist"),
      AngleDef("V2", "upper_chest", "nose", "left_wrist"),
      AngleDef("V3", "upper_chest", "hip_center", "right_wrist"),
      AngleDef("V4", "upper_chest", "hip_center", "left_wrist"),
      AngleDef("V5", "hip_center", "upper_chest", "right_ankle"),
      AngleDef("V6", "hip_center", "upper_chest", "left_ankle") ]
  }

  /** The column names the definitions create, in order. */
  function Names(defs: seq<AngleDef>): (r: seq<string>)
    ensures |r| == |defs| && forall j :: 0 <= j < |defs| ==> r[j] == defs[j].name
  {
    seq(|defs|, j requires 0 <= j < |defs| => defs[j].name)
  }

  /** The table creates the columns V1..V6, and every vertex differs from both of its end points. */
  lemma AngleTableShape()
    ensures Names(AngleTable()) == ["V1", "V2", "V3", "V4", "V5", "V6"]
    ensures NoDup(Names(AngleTable()))
    ensures forall d :: d in AngleTable() ==> d.vertex != d.a && d.vertex != d.c
  {
    var names := Names(AngleTable());
    assert names == ["V1", "V2", "V3", "V4", "V5", "V6"];
  }

  /** The coordinate columns of a keypoint. */
  function XColumn(keypoint: string): string { keypoint + "_x" }
  function YColumn(keypoint: string): string { keypoint + "_y" }

  /** The six fields one definition reads, in the order the source reads them: p0, p1, p2, each x before y. */
  function RequiredColumns(d: AngleDef): seq<string>
  {
    [XColumn(d.a), YColumn(d.a), XColumn(d.vertex), YColumn(d.vertex), XColumn(d.c), YColumn(d.c)]
  }

  /** The first of the columns the frame lacks: the field whose lookup raises KeyError. */
  function FirstMissing(f: Frame, columns: seq<string>): Option<string>
  {
    if columns == [] then None
    else if columns[0] !in f then Some(columns[0])
    else FirstMissing(f, columns[1..])
  }

  /** Nothing is missing exactly when the frame has every column; otherwise the result is the first column it lacks. */
  lemma {:induction false} FirstMissingSpec(f: Frame, columns: seq<string>)
    ensures var r := FirstMissing(f, columns);
      && (r.None? <==> forall k :: 0 <= k < |columns| ==> columns[k] in f)
      && (r.Some? ==> exists k :: 0 <= k < |columns| && columns[k] == r.value && r.value !in f
                                  && forall k' :: 0 <= k' < k ==> columns[k'] in f)
  {
    if columns != [] && columns[0] in f {
      FirstMissingSpec(f, columns[1..]);
      assert forall k :: 1 <= k < |columns| ==> columns[k] == columns[1..][k - 1];
      var r := FirstMissing(f, columns);
      if r.Some? {
        var k :| 0 <= k < |columns[1..]| && columns[1..][k] == r.value && r.value !in f
                 && forall k' :: 0 <= k' < k ==> columns[1..][k'] in f;
        assert columns[k + 1] == r.value;
      }
    }
  }

  /** The keypoint's position in the frame. */
  function PointOf(f: Frame, keypoint: string): Vec
    requires XColumn(keypoint) in f && YColumn(keypoint) in f
  {
    Vec(f[XColumn(keypoint)], f[YColumn(keypoint)])
  }

  /** The frame has all six coordinates the definition reads. */
  predicate Covers(f: Frame, d: AngleDef)
  {
    && XColumn(d.a) in f && YColumn(d.a) in f
    && XColumn(d.vertex) in f && YColumn(d.vertex) in f
    && XColumn(d.c) in f && YColumn(d.c) in f
  }

  /**
    One definition applied to one frame: the unsigned angle at the middle
    keypoint, or the name of the first coordinate the frame lacks.
  */
  function AngleIn(f: Frame, d: AngleDef, atan2: (real, real) -> real): Result<real, string>
  {
    var required := RequiredColumns(d);
    FirstMissingSpec(f, required);
    assert XColumn(d.a) == required[0] && YColumn(d.a) == required[1];
    assert XColumn(d.vertex) == required[2] && YColumn(d.vertex) == required[3];
    assert XColumn(d.c) == required[4] && YColumn(d.c) == required[5];
    match FirstMissing(f, required)
    case Some(column) => Failure(column)
    case None =>
      var p0 := PointOf(f, d.a);
      var p1 := PointOf(f, d.vertex);
      var p2 := PointOf(f, d.c);
      Success(Angle(Sub(p0, p1), Sub(p2, p1), atan2))
  }

  /**
    The angle exists exactly when the frame has the six coordinates; it is then
    the unsigned angle at the vertex, and otherwise the error names one of the
    required columns that the frame lacks.
  */
  lemma AngleInSpec(f: Frame, d: AngleDef, atan2: (real, real) -> real)
    ensures var r := AngleIn(f, d, atan2);
      && (r.Success? <==> Covers(f, d))
      && (r.Success? ==> r.value >= 0.0)
      && (r.Success? ==> r.value == AngleAtVertex(PointOf(f, d.a), PointOf(f, d.vertex), PointOf(f, d.c), atan2))
      && (r.Failure? ==> r.error in RequiredColumns(d) && r.error !in f)
  {
    var required := RequiredColumns(d);
    FirstMissingSpec(f, required);
    assert XColumn(d.a) == required[0] && YColumn(d.a) == required[1];
    assert XColumn(d.vertex) == required[2] && YColumn(d.vertex) == required[3];
    assert XColumn(d.c) == required[4] && YColumn(d.c) == required[5];
  }

  /** The angles of every definition in one frame, in definition order; the first failing definition decides the error. */
  function RowAngles(f: Frame, defs: seq<AngleDef>, atan2: (real, real) -> real): (r: Result<seq<real>, string>)
    ensures r.Success? ==> |r.value| == |defs|
  {
    if defs == [] then Success([])
    else
      var n := |defs| - 1;
      match RowAngles(f, defs[..n], atan2)
      case Failure(e) => Failure(e)
      case Success(vs) =>
        match AngleIn(f, defs[n], atan2)
        case Failure(e) => Failure(e)
        case Success(v) => Success(vs + [v])
  }

  /** A frame's angles exist exactly when every definition finds its coordinates; value j is definition j's angle. */
  lemma {:induction false} RowAnglesSpec(f: Frame, defs: seq<AngleDef>, atan2: (real, real) -> real)
    ensures RowAngles(f, defs, atan2).Success? <==> forall j :: 0 <= j < |defs| ==> AngleIn(f, defs[j], atan2).Success?
    ensures RowAngles(f, defs, atan2).Success? ==>
      forall j :: 0 <= j < |defs| ==> RowAngles(f, defs, atan2).value[j] == AngleIn(f, defs[j], atan2).value
  {
    if defs != [] {
      var n := |defs| - 1;
      RowAnglesSpec(f, defs[..n], atan2);
      assert forall j :: 0 <= j < n ==> defs[..n][j] == defs[j];
    }
  }

  /** A failing frame reports the error of its first failing definition; every earlier definition succeeds. */
  lemma {:induction false} RowAnglesFailure(f: Frame, defs: seq<AngleDef>, atan2: (real, real) -> real)
    ensures var r := RowAngles(f, defs, atan2);
      r.Failure? ==> exists j :: 0 <= j < |defs| && AngleIn(f, defs[j], atan2) == Failure(r.error)
                                  && forall j' :: 0 <= j' < j ==> AngleIn(f, defs[j'], atan2).Success?
  {
    if defs != [] {
      var n := |defs| - 1;
      var prev := RowAngles(f, defs[..n], atan2);
      var r := RowAngles(f, defs, atan2);
      assert forall j :: 0 <= j < n ==> defs[..n][j] == defs[j];
      if prev.Failure? {
        RowAnglesFailure(f, defs[..n], atan2);
        var j :| 0 <= j < n && AngleIn(f, defs[..n][j], atan2) == Failure(prev.error)
                   && forall j' :: 0 <= j' < j ==> AngleIn(f, defs[..n][j'], atan2).Success?;
        assert AngleIn(f, defs[j], atan2) == Failure(r.error);
      } else if r.Failure? {
        RowAnglesSpec(f, defs[..n], atan2);
        assert AngleIn(f, defs[n], atan2) == Failure(r.error);
      }
    }
  }

  /** `angles[angle_key].append(angle)` for every definition of one frame: list j gains the frame's value j. */
  function AppendRow(cols: seq<seq<real>>, vs: seq<real>): (r: seq<seq<real>>)
    requires |vs| == |cols|
    ensures |r| == |cols| && forall j :: 0 <= j < |cols| ==> r[j] == cols[j] + [vs[j]]
  {
    seq(|cols|, j requires 0 <= j < |cols| => cols[j] + [vs[j]])
  }

  /**
    The per-definition lists built over the frames: list j holds definition j's
    angle for every frame, in frame order. The first frame (and within it the
    first definition) that lacks a coordinate decides the error.
  */
  function AngleColumns(rows: seq<Frame>, defs: seq<AngleDef>, atan2: (real, real) -> real): (r: Result<seq<seq<real>>, string>)
    ensures r.Success? ==> |r.value| == |defs| && forall j :: 0 <= j < |defs| ==> |r.value[j]| == |rows|
  {
    if rows == [] then Success(seq(|defs|, j => []))
    else
      var n := |rows| - 1;
      match AngleColumns(rows[..n], defs, atan2)
      case Failure(e) => Failure(e)
      case Success(cols) =>
        match RowAngles(rows[n], defs, atan2)
        case Failure(e) => Failure(e)
        case Success(vs) => Success(AppendRow(cols, vs))
  }

  /** The lists exist exactly when every frame has every coordinate every definition reads. */
  lemma {:induction false} AngleColumnsSucceed(rows: seq<Frame>, defs: seq<AngleDef>, atan2: (real, real) -> real)
    ensures AngleColumns(rows, defs, atan2).Success? <==>
      forall i, j {:trigger AngleIn(rows[i], defs[j], atan2)} :: 0 <= i < |rows| && 0 <= j < |defs| ==> AngleIn(rows[i], defs[j], atan2).Success?
  {
    if rows != [] {
      var n := |rows| - 1;
      AngleColumnsSucceed(rows[..n], defs, atan2);
      RowAnglesSpec(rows[n], defs, atan2);
      assert forall i :: 0 <= i < n ==> rows[..n][i] == rows[i];
    }
  }

  /** Entry i of list j is definition j's angle in frame i: one entry per frame, in frame order. */
  lemma {:induction false} AngleColumnsValues(rows: seq<Frame>, defs: seq<AngleDef>, atan2: (real, real) -> real)
    requires AngleColumns(rows, defs, atan2).Success?
    ensures var cols := AngleColumns(rows, defs, atan2).value;
      forall i, j {:trigger AngleIn(rows[i], defs[j], atan2)} :: 0 <= i < |rows| && 0 <= j < |defs| ==> AngleIn(rows[i], defs[j], atan2) == Success(cols[j][i])
  {
    if rows != [] {
      var n := |rows| - 1;
      AngleColumnsValues(rows[..n], defs, atan2);
      RowAnglesSpec(rows[n], defs, atan2);
      assert forall i :: 0 <= i < n ==> rows[..n][i] == rows[i];
    }
  }

  /** Failing lists report the error of the first failing frame; every earlier frame succeeds. */
  lemma {:induction false} AngleColumnsFailure(rows: seq<Frame>, defs: seq<AngleDef>, atan2: (real, real) -> real)
    ensures var r := AngleColumns(rows, defs, atan2);
      r.Failure? ==> exists i :: 0 <= i < |rows| && RowAngles(rows[i], defs, atan2) == Failure(r.error)
                                  && forall i' :: 0 <= i' < i ==> RowAngles(rows[i'], defs, atan2).Success?
  {
    if rows != [] {
      var n := |rows| - 1;
      var prev := AngleColumns(rows[..n], defs, atan2);
      var r := AngleColumns(rows, defs, atan2);
      assert forall i :: 0 <= i < n ==> rows[..n][i] == rows[i];
      if prev.Failure? {
        AngleColumnsFailure(rows[..n], defs, atan2);
        var i :| 0 <= i < n && RowAngles(rows[..n][i], defs, atan2) == Failure(prev.error)
                   && forall i' :: 0 <= i' < i ==> RowAngles(rows[..n][i'], defs, atan2).Success?;
        assert RowAngles(rows[i], defs, atan2) == Failure(r.error);
      } else if r.Failure? {
        AngleColumnsPrefixSucceed(rows[..n], defs, atan2);
        assert RowAngles(rows[n], defs, atan2) == Failure(r.error);
      }
    }
  }

  /** Lists that exist come from frames that each succeed. */
  lemma {:induction false} AngleColumnsPrefixSucceed(rows: seq<Frame>, defs: seq<AngleDef>, atan2: (real, real) -> real)
    ensures AngleColumns(rows, defs, atan2).Success? ==> forall i :: 0 <= i < |rows| ==> RowAngles(rows[i], defs, atan2).Success?
  {
    if rows != [] {
      var n := |rows| - 1;
      AngleColumnsPrefixSucceed(rows[..n], defs, atan2);
      assert forall i :: 0 <= i < n ==> rows[..n][i] == rows[i];
    }
  }

  /** Once a prefix of the definitions fails, the whole row fails with the same error. */
  lemma {:induction false} RowAnglesFailurePersists(f: Frame, defs: seq<AngleDef>, j: nat, atan2: (real, real) -> real)
    requires j <= |defs| && RowAngles(f, defs[..j], atan2).Failure?
    ensures RowAngles(f, defs, atan2) == RowAngles(f, defs[..j], atan2)
  {
    if j < |defs| {
      var n := |defs| - 1;
      assert defs[..n][..j] == defs[..j];
      RowAnglesFailurePersists(f, defs[..n], j, atan2);
    } else {
      assert defs[..j] == defs;
    }
  }

  /** Once a prefix of the frames fails, the lists fail with the same error. */
  lemma {:induction false} AngleColumnsFailurePersists(rows: seq<Frame>, i: nat, defs: seq<AngleDef>, atan2: (real, real) -> real)
    requires i <= |rows| && AngleColumns(rows[..i], defs, atan2).Failure?
    ensures AngleColumns(rows, defs, atan2) == AngleColumns(rows[..i], defs, atan2)
  {
    if i < |rows| {
      var n := |rows| - 1;
      assert rows[..n][..i] == rows[..i];
      AngleColumnsFailurePersists(rows[..n], i, defs, atan2);
    } else {
      assert rows[..i] == rows;
    }
  }

  /** Extending a row prefix by one definition appends its angle or stops with its error. */
  lemma RowAnglesStep(f: Frame, defs: seq<AngleDef>, j: nat, atan2: (real, real) -> real)
    requires j < |defs| && RowAngles(f, defs[..j], atan2).Success?
    ensures RowAngles(f, defs[..j + 1], atan2) ==
      match AngleIn(f, defs[j], atan2)
      case Failure(e) => Failure(e)
      case Success(v) => Success(RowAngles(f, defs[..j], atan2).value + [v])
  {
    assert defs[..j + 1][..j] == defs[..j] && defs[..j + 1][j] == defs[j];
  }

  /** Extending the frame prefix by one frame appends its angles to the lists or stops with its error. */
  lemma AngleColumnsStep(rows: seq<Frame>, i: nat, defs: seq<AngleDef>, atan2: (real, real) -> real)
    requires i < |rows| && AngleColumns(rows[..i], defs, atan2).Success?
    ensures var cols := AngleColumns(rows[..i], defs, atan2).value;
      AngleColumns(rows[..i + 1], defs, atan2) ==
        match RowAngles(rows[i], defs, atan2)
        case Failure(e) => Failure(e)
        case Success(vs) => Success(AppendRow(cols, vs))
  {
    assert rows[..i + 1][..i] == rows[..i] && rows[..i + 1][i] == rows[i];
  }

  /**
    The inner loop of create_angles for one frame: the angle of every
    definition, in definition order; a missing coordinate stops it with its
    column name.
  */
  method FrameAngles(row: Frame, defs: seq<AngleDef>, atan2: (real, real) -> real) returns (r: Result<seq<real>, string>)
    ensures r == RowAngles(row, defs, atan2)
  {
    var values: seq<real> := [];
    var j := 0;
    while j < |defs|
      invariant 0 <= j <= |defs|
      invariant RowAngles(row, defs[..j], atan2) == Success(values)
    {
      var angle := AngleIn(row, defs[j], atan2);
      RowAnglesStep(row, defs, j, atan2);
      if angle.Failure? {
        RowAnglesFailurePersists(row, defs, j + 1, atan2);
        return Failure(angle.error);
      }
      values := values + [angle.value];
      j := j + 1;
    }
    assert defs[..j] == defs;
    return Success(values);
  }

  /**
    The loops of create_angles for one subject: for every frame, in order, each
    definition's angle is appended to that definition's list; a missing
    coordinate stops the subject with its column name.
  */
  method SubjectAngles(data: Table, defs: seq<AngleDef>, atan2: (real, real) -> real) returns (r: Result<seq<seq<real>>, string>)
    ensures r == AngleColumns(data.rows, defs, atan2)
  {
    var rows := data.rows;
    var angles: seq<seq<real>> := seq(|defs|, j => []);
    var i := 0;
    while i < |rows|
      invariant 0 <= i <= |rows|
      invariant AngleColumns(rows[..i], defs, atan2) == Success(angles)
    {
      var frame := FrameAngles(rows[i], defs, atan2);
      AngleColumnsStep(rows, i, defs, atan2);
      if frame.Failure? {
        AngleColumnsFailurePersists(rows, i + 1, defs, atan2);
        return Failure(frame.error);
      }
      angles := AppendRow(angles, frame.value);
      i := i + 1;
    }
    assert rows[..i] == rows;
    return Success(angles);
  }

  /** One subject with its angle columns attached, or the error that stops it. */
  function AugmentSubject(s: Subject, defs: seq<AngleDef>, atan2: (real, real) -> real): (r: Result<Subject, string>)
    ensures r.Success? ==> r.value.cp == s.cp && r.value.fps == s.fps && |r.value.data.rows| == |s.data.rows|
  {
    match AngleColumns(s.data.rows, defs, atan2)
    case Failure(e) => Failure(e)
    case Success(cols) => Success(s.(data := AddColumns(s.data, Names(defs), cols)))
  }

  /** A subject is augmented exactly when every definition finds its coordinates in every frame. */
  lemma AugmentSubjectSucceeds(s: Subject, defs: seq<AngleDef>, atan2: (real, real) -> real)
    ensures AugmentSubject(s, defs, atan2).Success? <==>
      forall i, j {:trigger AngleIn(s.data.rows[i], defs[j], atan2)} :: 0 <= i < |s.data.rows| && 0 <= j < |defs| ==> AngleIn(s.data.rows[i], defs[j], atan2).Success?
  {
    AngleColumnsSucceed(s.data.rows, defs, atan2);
  }

  /**
    Row i of an augmented subject holds, under definition j's name, definition
    j's angle in frame i, overwriting a column of that name if there was one.
  */
  lemma AugmentSubjectSpec(s: Subject, defs: seq<AngleDef>, atan2: (real, real) -> real)
    requires NoDup(Names(defs))
    ensures var r := AugmentSubject(s, defs, atan2);
      r.Success? ==>
        && (forall i, j {:trigger AngleIn(s.data.rows[i], defs[j], atan2)} :: 0 <= i < |s.data.rows| && 0 <= j < |defs| ==>
              defs[j].name in r.value.data.rows[i] && AngleIn(s.data.rows[i], defs[j], atan2) == Success(r.value.data.rows[i][defs[j].name]))
  {
    var columns := AngleColumns(s.data.rows, defs, atan2);
    if columns.Success? {
      var t := s.data;
      var names := Names(defs);
      var cols := columns.value;
      var out := AddColumns(t, names, cols);
      assert AugmentSubject(s, defs, atan2) == Success(s.(data := out));
      AngleColumnsValues(t.rows, defs, atan2);
      forall i, j | 0 <= i < |t.rows| && 0 <= j < |defs|
        ensures defs[j].name in out.rows[i] && AngleIn(t.rows[i], defs[j], atan2) == Success(out.rows[i][defs[j].name])
      {
        assert names[j] == defs[j].name;
        AddColumnsValue(t, names, cols, i, j);
      }
    }
  }

  /** Every field of every frame other than the definitions' names keeps its presence and value. */
  lemma AugmentSubjectKeeps(s: Subject, defs: seq<AngleDef>, atan2: (real, real) -> real)
    ensures var r := AugmentSubject(s, defs, atan2);
      r.Success? ==>
        forall i, c :: 0 <= i < |s.data.rows| && c !in Names(defs) ==>
          (c in r.value.data.rows[i] <==> c in s.data.rows[i]) && (c in s.data.rows[i] ==> r.value.data.rows[i][c] == s.data.rows[i][c])
  {
    var columns := AngleColumns(s.data.rows, defs, atan2);
    if columns.Success? {
      assert AugmentSubject(s, defs, atan2) == Success(s.(data := AddColumns(s.data, Names(defs), columns.value)));
      AddColumnsKeeps(s.data, Names(defs), columns.value);
    }
  }

  /**
    The columns of an augmented subject: the old columns stay in front, the
    definitions' names are added to the set of columns, a well-formed table
    stays well-formed, and when none of the names was a column they are
    appended exactly, in definition order.
  */
  lemma AugmentSubjectShape(s: Subject, defs: seq<AngleDef>, atan2: (real, real) -> real)
    requires WellFormed(s.data)
    ensures var r := AugmentSubject(s, defs, atan2);
      r.Success? ==>
        && WellFormed(r.value.data)
        && s.data.columns <= r.value.data.columns
        && (forall c :: c in r.value.data.columns <==> c in s.data.columns || c in Names(defs))
        && (NoDup(Names(defs)) && (forall j :: 0 <= j < |defs| ==> defs[j].name !in s.data.columns) ==>
              r.value.data.columns == s.data.columns + Names(defs))
  {
    var columns := AngleColumns(s.data.rows, defs, atan2);
    if columns.Success? {
      var t := s.data;
      var names := Names(defs);
      var cols := columns.value;
      assert AugmentSubject(s, defs, atan2) == Success(s.(data := AddColumns(t, names, cols)));
      AddColumnsColumns(t, names, cols);
      if NoDup(names) && forall j :: 0 <= j < |defs| ==> defs[j].name !in t.columns {
        assert forall j :: 0 <= j < |names| ==> names[j] !in t.columns;
        AddColumnsShape(t, names, cols);
      }
    }
  }

  /**
    For the angle table: a well-formed subject stays well-formed, gains the
    columns V1..V6 (a column already present is overwritten in place), and
    when it had none of them they are appended in the order V1..V6.
  */
  lemma AugmentSubjectColumns(s: Subject, atan2: (real, real) -> real)
    requires WellFormed(s.data)
    ensures var r := AugmentSubject(s, AngleTable(), atan2);
      r.Success? ==>
        && WellFormed(r.value.data)
        && s.data.columns <= r.value.data.columns
        && (forall c :: c in r.value.data.columns <==> c in s.data.columns || c in ["V1", "V2", "V3", "V4", "V5", "V6"])
        && ((forall name :: name in ["V1", "V2", "V3", "V4", "V5", "V6"] ==> name !in s.data.columns) ==>
              r.value.data.columns == s.data.columns + ["V1", "V2", "V3", "V4", "V5", "V6"])
  {
    AngleTableShape();
    var defs := AngleTable();
    AugmentSubjectShape(s, defs, atan2);
    if forall name :: name in ["V1", "V2", "V3", "V4", "V5", "V6"] ==> name !in s.data.columns {
      forall j | 0 <= j < |defs|
        ensures defs[j].name !in s.data.columns
      {
        assert defs[j].name == Names(defs)[j];
      }
    }
  }

  /** The outcome of create_angles: the subjects as they stand and the error that stopped it, if any. */
  datatype AugmentOutcome = AugmentOutcome(cima: map<string, Subject>, error: Option<string>)

  /** The per-subject step of create_angles as a value: augment one subject with the given definitions. */
  function AugmentStep(defs: seq<AngleDef>, atan2: (real, real) -> real): Subject -> Result<Subject, string>
  {
    s => AugmentSubject(s, defs, atan2)
  }

  lemma AugmentStepApply(defs: seq<AngleDef>, atan2: (real, real) -> real, s: Subject)
    ensures AugmentStep(defs, atan2)(s) == AugmentSubject(s, defs, atan2)
  {
  }

  /** A step that never changes a subject's label, frame rate or number of frames. */
  ghost predicate KeepsMetadata(step: Subject -> Result<Subject, string>)
  {
    forall s :: step(s).Success? ==> step(s).value.cp == s.cp && step(s).value.fps == s.fps && |step(s).value.data.rows| == |s.data.rows|
  }

  /** Augmenting a subject keeps its label, frame rate and frames count. */
  lemma AugmentStepKeepsMetadata(defs: seq<AngleDef>, atan2: (real, real) -> real)
    ensures KeepsMetadata(AugmentStep(defs, atan2))
  {
    forall s | AugmentStep(defs, atan2)(s).Success?
      ensures var r := AugmentStep(defs, atan2)(s).value; r.cp == s.cp && r.fps == s.fps && |r.data.rows| == |s.data.rows|
    {
      assert AugmentStep(defs, atan2)(s) == AugmentSubject(s, defs, atan2);
    }
  }

  /**
    The loop of create_angles: step applied to the subjects in dict order; the
    first failing subject stops the loop, with every subject before it updated
    and it and every later one as they were.
  */
  function AugmentAll(cima: map<string, Subject>, order: seq<string>, step: Subject -> Result<Subject, string>): (r: AugmentOutcome)
    requires forall j :: 0 <= j < |order| ==> order[j] in cima
    ensures r.cima.Keys == cima.Keys
  {
    if order == [] then AugmentOutcome(cima, None)
    else
      var n := |order| - 1;
      var prev := AugmentAll(cima, order[..n], step);
      if prev.error.Some? then prev
      else
        var key := order[n];
        match step(prev.cima[key])
        case Failure(e) => AugmentOutcome(prev.cima, Some(e))
        case Success(s) => AugmentOutcome(prev.cima[key := s], None)
  }

  /** Extending the key prefix by one key either keeps a failure or applies the step to that key's subject. */
  lemma AugmentAllStep(cima: map<string, Subject>, order: seq<string>, i: nat, step: Subject -> Result<Subject, string>)
    requires forall j :: 0 <= j < |order| ==> order[j] in cima
    requires i < |order|
    ensures var prev := AugmentAll(cima, order[..i], step);
      AugmentAll(cima, order[..i + 1], step) ==
        if prev.error.Some? then prev
        else match step(prev.cima[order[i]])
          case Failure(e) => AugmentOutcome(prev.cima, Some(e))
          case Success(s) => AugmentOutcome(prev.cima[order[i] := s], None)
  {
    assert order[..i + 1][..i] == order[..i];
  }

  /** Once a prefix of the subjects fails, the loop stops there. */
  lemma {:induction false} AugmentAllFailurePersists(cima: map<string, Subject>, order: seq<string>, i: nat, step: Subject -> Result<Subject, string>)
    requires forall j :: 0 <= j < |order| ==> order[j] in cima
    requires i <= |order| && AugmentAll(cima, order[..i], step).error.Some?
    ensures AugmentAll(cima, order, step) == AugmentAll(cima, order[..i], step)
    decreases |order| - i
  {
    if i < |order| {
      AugmentAllStep(cima, order, i, step);
      AugmentAllFailurePersists(cima, order, i + 1, step);
    } else {
      assert order[..i] == order;
    }
  }

  /** No subject is added or removed, and with a step that keeps them, every label, frame rate and frame count stays as it was. */
  lemma {:induction false} AugmentAllKeepsMetadata(cima: map<string, Subject>, order: seq<string>, step: Subject -> Result<Subject, string>)
    requires forall j :: 0 <= j < |order| ==> order[j] in cima
    requires KeepsMetadata(step)
    ensures var r := AugmentAll(cima, order, step);
      r.cima.Keys == cima.Keys &&
      forall k :: k in cima ==> r.cima[k].cp == cima[k].cp && r.cima[k].fps == cima[k].fps && |r.cima[k].data.rows| == |cima[k].data.rows|
  {
    if order != [] {
      AugmentAllKeepsMetadata(cima, order[..|order| - 1], step);
    }
  }

  /** Subjects that are not listed in the order are never touched. */
  lemma {:induction false} AugmentAllUnlisted(cima: map<string, Subject>, order: seq<string>, step: Subject -> Result<Subject, string>)
    requires forall j :: 0 <= j < |order| ==> order[j] in cima
    ensures var r := AugmentAll(cima, order, step);
      forall k :: k in cima && k !in order ==> r.cima[k] == cima[k]
  {
    if order != [] {
      var n := |order| - 1;
      assert forall j :: 0 <= j < n ==> order[..n][j] == order[j];
      AugmentAllUnlisted(cima, order[..n], step);
    }
  }

  /** When the loop completes over distinct keys, each listed subject holds the step's result for its original record. */
  lemma {:induction false} AugmentAllComplete(cima: map<string, Subject>, order: seq<string>, step: Subject -> Result<Subject, string>)
    requires forall j :: 0 <= j < |order| ==> order[j] in cima
    requires NoDup(order)
    ensures var r := AugmentAll(cima, order, step);
      r.error.None? ==> forall k :: k in order ==> step(cima[k]) == Success(r.cima[k])
  {
    if order != [] {
      var n := |order| - 1;
      var key := order[n];
      assert forall j :: 0 <= j < n ==> order[..n][j] == order[j];
      assert NoDup(order[..n]);
      assert key !in order[..n];
      AugmentAllComplete(cima, order[..n], step);
      AugmentAllUnlisted(cima, order[..n], step);
      var prev := AugmentAll(cima, order[..n], step);
      var r := AugmentAll(cima, order, step);
      if r.error.None? {
        assert prev.error.None? && prev.cima[key] == cima[key];
        forall k | k in order
          ensures step(cima[k]) == Success(r.cima[k])
        {
          if k != key {
            assert k in order[..n];
            assert r.cima[k] == prev.cima[k];
          }
        }
      }
    }
  }

  /**
    After a completed run with the angle table over distinct keys of
    well-formed subjects, every listed subject is well-formed, keeps its
    columns in front and its frame count, and has exactly the columns V1..V6
    added to its set of columns.
  */
  lemma AugmentAllColumns(cima: map<string, Subject>, order: seq<string>, atan2: (real, real) -> real)
    requires forall j :: 0 <= j < |order| ==> order[j] in cima
    requires NoDup(order) && forall k :: k in cima ==> WellFormed(cima[k].data)
    ensures var r := AugmentAll(cima, order, AugmentStep(AngleTable(), atan2));
      r.error.None? ==> forall k :: k in order ==>
        && WellFormed(r.cima[k].data)
        && cima[k].data.columns <= r.cima[k].data.columns
        && |r.cima[k].data.rows| == |cima[k].data.rows|
        && (forall c :: c in r.cima[k].data.columns <==> c in cima[k].data.columns || c in ["V1", "V2", "V3", "V4", "V5", "V6"])
  {
    var step := AugmentStep(AngleTable(), atan2);
    var r := AugmentAll(cima, order, step);
    if r.error.None? {
      AugmentAllComplete(cima, order, step);
      forall k | k in order
        ensures && WellFormed(r.cima[k].data)
                && cima[k].data.columns <= r.cima[k].data.columns
                && |r.cima[k].data.rows| == |cima[k].data.rows|
                && (forall c :: c in r.cima[k].data.columns <==> c in cima[k].data.columns || c in ["V1", "V2", "V3", "V4", "V5", "V6"])
      {
        AugmentStepApply(AngleTable(), atan2, cima[k]);
        AugmentSubjectColumns(cima[k], atan2);
      }
    }
  }

  /**
    When the loop, having completed the first i keys, stops, it stops at some
    later key: the loop over the keys before it completed, and the step failed
    on that key's current subject.
  */
  lemma {:induction false} AugmentAllStopsAt(cima: map<string, Subject>, order: seq<string>, i: nat, step: Subject -> Result<Subject, string>)
    requires forall j :: 0 <= j < |order| ==> order[j] in cima
    requires i <= |order| && AugmentAll(cima, order[..i], step).error.None?
    ensures var r := AugmentAll(cima, order, step);
      r.error.Some? ==> exists j :: i <= j < |order| && AugmentAll(cima, order[..j], step) == AugmentOutcome(r.cima, None)
                                      && step(r.cima[order[j]]) == Failure(r.error.value)
    decreases |order| - i
  {
    if i == |order| {
      assert order[..i] == order;
    } else {
      var p := AugmentAll(cima, order[..i], step);
      AugmentAllStep(cima, order, i, step);
      if step(p.cima[order[i]]).Failure? {
        AugmentAllFailurePersists(cima, order, i + 1, step);
      } else {
        AugmentAllStopsAt(cima, order, i + 1, step);
      }
    }
  }

  /** Over distinct keys, a key after the first j is untouched by the loop over the first j. */
  lemma AugmentAllPrefixUntouched(cima: map<string, Subject>, order: seq<string>, j: nat, step: Subject -> Result<Subject, string>)
    requires forall i :: 0 <= i < |order| ==> order[i] in cima
    requires NoDup(order) && j <= |order|
    ensures forall m :: j <= m < |order| ==> AugmentAll(cima, order[..j], step).cima[order[m]] == cima[order[m]]
  {
    var prefix := order[..j];
    assert forall i :: 0 <= i < j ==> prefix[i] == order[i];
    AugmentAllUnlisted(cima, prefix, step);
    forall m | j <= m < |order|
      ensures order[m] !in prefix
    {
    }
  }

  /** Over distinct keys, a completed loop over the first j keys holds the step's result for each of them. */
  lemma AugmentAllPrefixComplete(cima: map<string, Subject>, order: seq<string>, j: nat, step: Subject -> Result<Subject, string>)
    requires forall i :: 0 <= i < |order| ==> order[i] in cima
    requires NoDup(order) && j <= |order|
    ensures var p := AugmentAll(cima, order[..j], step);
      p.error.None? ==> forall m :: 0 <= m < j ==> step(cima[order[m]]) == Success(p.cima[order[m]])
  {
    var prefix := order[..j];
    assert forall i :: 0 <= i < j ==> prefix[i] == order[i];
    assert NoDup(prefix);
    AugmentAllComplete(cima, prefix, step);
    forall m | 0 <= m < j
      ensures order[m] in prefix
    {
      assert prefix[m] == order[m];
    }
  }

  /**
    When the loop stops over distinct keys, it stops at a subject on which the
    step fails: every subject before it holds the step's result for its
    original record, the state is the one the loop reached over those
    subjects, and the failing subject and all later ones are untouched.
  */
  lemma AugmentAllStopped(cima: map<string, Subject>, order: seq<string>, step: Subject -> Result<Subject, string>)
    requires forall j :: 0 <= j < |order| ==> order[j] in cima
    requires NoDup(order)
    ensures var r := AugmentAll(cima, order, step);
      r.error.Some? ==> exists j :: 0 <= j < |order| && step(cima[order[j]]) == Failure(r.error.value)
                          && (forall m :: 0 <= m < j ==> step(cima[order[m]]) == Success(r.cima[order[m]]))
                          && (forall m :: j <= m < |order| ==> r.cima[order[m]] == cima[order[m]])
                          && AugmentAll(cima, order[..j], step) == AugmentOutcome(r.cima, None)
  {
    var r := AugmentAll(cima, order, step);
    if r.error.Some? {
      assert order[..0] == [];
      AugmentAllStopsAt(cima, order, 0, step);
      var j :| 0 <= j < |order| && AugmentAll(cima, order[..j], step) == AugmentOutcome(r.cima, None)
                && step(r.cima[order[j]]) == Failure(r.error.value);
      AugmentAllPrefixUntouched(cima, order, j, step);
      AugmentAllPrefixComplete(cima, order, j, step);
    }
  }
}
