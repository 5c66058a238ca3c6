/**
  The ETL object itself: the data path, the six angle definitions, the
  metadata table, and the `cima` dictionary of subjects, which load fills and
  create_angles augments in place.
*/
module CimaEtl {
  import opened Wrappers
  import opened Paths
  import opened Tables
  import opened Metadata
  import opened Catalogue
  import opened Angles
  import opened Loading

  class Etl {
    const dataPath: string
    const angles: seq<AngleDef>
    var metadata: seq<MetaRow>
    /** The keys of cima in insertion order, the order in which a Python dict is iterated. */
    var order: seq<string>
    var cima: map<string, Subject>

    /** The angle table is fixed, the key order lists exactly cima's keys, and every stored frame table is well-formed. */
    ghost predicate Valid()
      reads this
    {
      && angles == AngleTable()
      && Indexed(order, cima.Keys)
      && forall k :: k in cima ==> WellFormed(cima[k].data)
    }

    /** `__init__`: the data path, an empty cima and the angle table V1..V6. */
    constructor(dataPath: string)
      ensures Valid()
      ensures this.dataPath == dataPath && cima == map[] && order == [] && metadata == []
    {
      this.dataPath := dataPath;
      angles := AngleTable();
      metadata := [];
      order := [];
      cima := map[];
    }

    /**
      `load`: store the metadata table, collect the walked CSV files (only the
      first five when tiny), and for each file derive the subject ID from its
      stem, record the ID as missing when no metadata row has it, and otherwise
      store the frames without the index column with the first matching row's
      CP and FPS. An empty stem stops the loop with every earlier file's
      effect kept. Entries from an earlier load are never cleared.
    */
    method Load(walk: seq<WalkEntry>, tiny: bool, metaTable: seq<MetaRow>, read: string -> Table)
      returns (missing: seq<string>, err: Option<LoadError>)
      requires Valid() && forall p :: WellFormed(read(p))
      modifies this
      ensures Valid() && metadata == metaTable
      ensures LoadAll(LoadState(old(order), old(cima), []), Select(CsvPaths(walk), tiny), metaTable, read)
              == LoadOutcome(LoadState(order, cima, missing), err)
    {
      metadata := metaTable;
      var files := CollectCsvFiles(walk);
      if tiny {
        files := files[..Min(TinyCount, |files|)];
      }
      ghost var s0 := LoadState(order, cima, []);
      missing := [];
      var i := 0;
      while i < |files|
        invariant 0 <= i <= |files|
        invariant Valid() && metadata == metaTable
        invariant LoadAll(s0, files[..i], metaTable, read) == LoadOutcome(LoadState(order, cima, missing), None)
      {
        var file := files[i];
        LoadAllStep(s0, files, i, metaTable, read);
        var stepErr;
        missing, stepErr := LoadOne(file, metaTable, read, missing);
        if stepErr.Some? {
          err := stepErr;
          LoadAllFailurePersists(s0, files, i + 1, metaTable, read);
          return;
        }
        i := i + 1;
      }
      assert files[..i] == files;
      err := None;
    }

    /**
      One iteration of load's loop over the files: an empty stem is an
      IndexError; otherwise the ID is recorded as missing or the subject is
      stored under it.
    */
    method LoadOne(file: string, metaTable: seq<MetaRow>, read: string -> Table, missing: seq<string>)
      returns (missing': seq<string>, err: Option<LoadError>)
      requires Valid() && forall p :: WellFormed(read(p))
      modifies this
      ensures Valid() && metadata == old(metadata)
      ensures match LoadFile(LoadState(old(order), old(cima), missing), file, metaTable, read)
        case Failure(e) => err == Some(e) && order == old(order) && cima == old(cima) && missing' == missing
        case Success(next) => err.None? && next == LoadState(order, cima, missing')
    {
      var fileName := Stem(file);
      if fileName == [] {
        return missing, Some(EmptyStem(file));
      }
      LoadFileIndexed(LoadState(order, cima, missing), file, metaTable, read);
      var fileId := SubjectId(fileName).value;
      var metaRow := FirstMatch(metaTable, fileId);
      if metaRow.None? {
        return missing + [fileId], None;
      }
      var data := DropColumn(read(file), IndexColumn);
      DropColumnSpec(read(file), IndexColumn);
      var row := metaTable[metaRow.value];
      if fileId !in cima {
        order := order + [fileId];
      }
      cima := cima[fileId := Subject(data, row.cp, row.fps)];
      return missing, None;
    }

    /**
      One iteration of create_angles' loop over the subjects: the angle columns
      of the subject under key, attached to its frames, or the error that
      stops the loop with the subject unchanged.
    */
    method AugmentOne(key: string, atan2: (real, real) -> real) returns (err: Option<string>)
      requires Valid() && key in cima
      modifies this
      ensures Valid() && order == old(order) && metadata == old(metadata)
      ensures match AugmentSubject(old(cima)[key], angles, atan2)
        case Failure(e) => err == Some(e) && cima == old(cima)
        case Success(s) => err.None? && cima == old(cima)[key := s]
    {
      var item := cima[key];
      var columns := SubjectAngles(item.data, angles, atan2);
      if columns.Failure? {
        return Some(columns.error);
      }
      var data := AddColumns(item.data, Names(angles), columns.value);
      AddColumnsColumns(item.data, Names(angles), columns.value);
      cima := cima[key := item.(data := data)];
      return None;
    }

    /**
      `create_angles`: for each subject in dict order, compute the six angles of
      every frame and attach them as columns V1..V6. A frame missing a
      keypoint coordinate stops the loop with that column's name; subjects
      before it are augmented, it and later ones are as they were.
    */
    method CreateAngles(atan2: (real, real) -> real) returns (err: Option<string>)
      requires Valid()
      modifies this
      ensures Valid() && order == old(order) && metadata == old(metadata)
      ensures forall j :: 0 <= j < |order| ==> order[j] in old(cima)
      ensures AugmentAll(old(cima), order, AugmentStep(angles, atan2)) == AugmentOutcome(cima, err)
    {
      ghost var c0 := cima;
      ghost var step := AugmentStep(angles, atan2);
      var i := 0;
      while i < |order|
        invariant 0 <= i <= |order|
        invariant cima.Keys == c0.Keys && Valid() && order == old(order) && metadata == old(metadata)
        invariant forall j :: 0 <= j < |order| ==> order[j] in c0
        invariant AugmentAll(c0, order[..i], step) == AugmentOutcome(cima, None)
      {
        var key := order[i];
        AugmentAllStep(c0, order, i, step);
        AugmentStepApply(angles, atan2, cima[key]);
        var stepErr := AugmentOne(key, atan2);
        if stepErr.Some? {
          err := stepErr;
          AugmentAllFailurePersists(c0, order, i + 1, step);
          return;
        }
        i := i + 1;
      }
      assert order[..i] == order;
      err := None;
    }
  }
}
