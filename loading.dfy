/**
  The metadata join of ETL.load, file by file: derive the subject ID, look it
  up in the metadata table, record it as missing or store the subject's frames
  with its label and frame rate in `cima`.
*/
module Loading {
  import opened Wrappers
  import opened Paths
  import opened Tables
  import opened Metadata
  import opened Catalogue

  /** `file_name[0]` on an empty stem raises IndexError, which ends load. */
  datatype LoadError = EmptyStem(path: string)

  /** What load has built so far: cima with its key order, and the IDs that had no metadata row. */
  datatype LoadState = LoadState(order: seq<string>, cima: map<string, Subject>, missing: seq<string>)

  /** The state load leaves behind, and the error that ended it early, if any. */
  datatype LoadOutcome = LoadOutcome(state: LoadState, error: Option<LoadError>)

  /** The subject stored for a matched file: its frames without the index column, with the row's CP and FPS. */
  function Entry(path: string, row: MetaRow, read: string -> Table): Subject
  {
    Subject(DropColumn(read(path), IndexColumn), row.cp, row.fps)
  }

  /** The subject ID derived from a path, when its stem is not empty. */
  function PathId(path: string): Option<string>
  {
    SubjectId(Stem(path))
  }

  /** One iteration of the loading loop. */
  function LoadFile(s: LoadState, path: string, meta: seq<MetaRow>, read: string -> Table): (r: Result<LoadState, LoadError>)
    ensures r.Failure? <==> Stem(path) == []
  {
    match PathId(path)
    case None => Failure(EmptyStem(path))
    case Some(id) =>
      match FirstMatch(meta, id)
      case None => Success(s.(missing := s.missing + [id]))
      case Some(k) => Success(LoadState(InsertOrder(s.order, s.cima, id), s.cima[id := Entry(path, meta[k], read)], s.missing))
  }

  /**
    The file-level effect: an ID without a metadata row is appended to the
    missing list and nothing else changes; a matched ID is stored with the first
    matching row, replacing an earlier entry, and every other key keeps its entry.
  */
  lemma LoadFileEffect(s: LoadState, path: string, meta: seq<MetaRow>, read: string -> Table)
    requires Stem(path) != []
    ensures var id := PathId(path).value;
      var r := LoadFile(s, path, meta, read).value;
      && (!HasId(meta, id) ==> r == s.(missing := s.missing + [id]))
      && (HasId(meta, id) ==>
            && r.missing == s.missing
            && r.cima.Keys == s.cima.Keys + {id}
            && FirstMatch(meta, id).Some?
            && r.cima[id] == Entry(path, meta[FirstMatch(meta, id).value], read)
            && (forall k :: k in s.cima && k != id ==> r.cima[k] == s.cima[k]))
  {
    FirstMatchSpec(meta, PathId(path).value);
  }

  /** Storing a subject keeps the key order a duplicate-free list of exactly cima's keys; existing keys keep their place. */
  lemma LoadFileIndexed(s: LoadState, path: string, meta: seq<MetaRow>, read: string -> Table)
    requires Stem(path) != [] && Indexed(s.order, s.cima.Keys)
    ensures var r := LoadFile(s, path, meta, read).value;
      Indexed(r.order, r.cima.Keys) && s.order <= r.order
  {
  }

  /** The loading loop over the selected files, in order; the first empty stem ends it. */
  function LoadAll(s: LoadState, paths: seq<string>, meta: seq<MetaRow>, read: string -> Table): (r: LoadOutcome)
  {
    if paths == [] then LoadOutcome(s, None)
    else
      var n := |paths| - 1;
      var prev := LoadAll(s, paths[..n], meta, read);
      if prev.error.Some? then prev
      else
        match LoadFile(prev.state, paths[n], meta, read)
        case Failure(e) => LoadOutcome(prev.state, Some(e))
        case Success(next) => LoadOutcome(next, None)
  }

  /**
    Keys persist and new keys are metadata IDs: every key present before is
    still present, and every key present after was present before or has a
    row in the metadata table. An ID without metadata never becomes a key.
  */
  lemma {:induction false} LoadAllKeys(s: LoadState, paths: seq<string>, meta: seq<MetaRow>, read: string -> Table)
    ensures var r := LoadAll(s, paths, meta, read).state;
      && s.cima.Keys <= r.cima.Keys
      && forall k :: k in r.cima ==> k in s.cima || HasId(meta, k)
  {
    if paths != [] {
      var n := |paths| - 1;
      LoadAllKeys(s, paths[..n], meta, read);
      var prev := LoadAll(s, paths[..n], meta, read);
      if prev.error.None? && Stem(paths[n]) != [] {
        LoadFileEffect(prev.state, paths[n], meta, read);
      }
    }
  }

  /** The missing list only grows, and everything appended to it is an ID without a metadata row. */
  lemma {:induction false} LoadAllMissing(s: LoadState, paths: seq<string>, meta: seq<MetaRow>, read: string -> Table)
    ensures var r := LoadAll(s, paths, meta, read).state;
      && s.missing <= r.missing
      && forall j :: |s.missing| <= j < |r.missing| ==> !HasId(meta, r.missing[j])
  {
    if paths != [] {
      var n := |paths| - 1;
      LoadAllMissing(s, paths[..n], meta, read);
      var prev := LoadAll(s, paths[..n], meta, read);
      if prev.error.None? && Stem(paths[n]) != [] {
        LoadFileEffect(prev.state, paths[n], meta, read);
      }
    }
  }

  /** The key order stays a duplicate-free list of exactly cima's keys, and earlier keys keep their place. */
  lemma {:induction false} LoadAllIndexed(s: LoadState, paths: seq<string>, meta: seq<MetaRow>, read: string -> Table)
    requires Indexed(s.order, s.cima.Keys)
    ensures var r := LoadAll(s, paths, meta, read).state;
      Indexed(r.order, r.cima.Keys) && s.order <= r.order
  {
    if paths != [] {
      var n := |paths| - 1;
      LoadAllIndexed(s, paths[..n], meta, read);
      var prev := LoadAll(s, paths[..n], meta, read);
      if prev.error.None? && Stem(paths[n]) != [] {
        LoadFileIndexed(prev.state, paths[n], meta, read);
      }
    }
  }

  /** A key that no selected file derives keeps its entry, or stays absent. */
  lemma {:induction false} LoadAllUntouched(s: LoadState, paths: seq<string>, meta: seq<MetaRow>, read: string -> Table, k: string)
    requires forall j :: 0 <= j < |paths| ==> PathId(paths[j]) != Some(k)
    ensures var r := LoadAll(s, paths, meta, read).state;
      (k in r.cima <==> k in s.cima) && (k in s.cima ==> r.cima[k] == s.cima[k])
  {
    if paths != [] {
      var n := |paths| - 1;
      assert forall j :: 0 <= j < n ==> paths[..n][j] == paths[j];
      LoadAllUntouched(s, paths[..n], meta, read, k);
      var prev := LoadAll(s, paths[..n], meta, read);
      if prev.error.None? && Stem(paths[n]) != [] {
        LoadFileEffect(prev.state, paths[n], meta, read);
      }
    }
  }

  /**
    The last file wins: when load completes, a matched ID holds the entry of the
    last selected file that derives it, built from the first matching row.
  */
  lemma {:induction false} LoadAllLastWins(s: LoadState, paths: seq<string>, meta: seq<MetaRow>, read: string -> Table, j: nat)
    requires LoadAll(s, paths, meta, read).error.None?
    requires j < |paths| && PathId(paths[j]).Some? && HasId(meta, PathId(paths[j]).value)
    requires forall j' :: j < j' < |paths| ==> PathId(paths[j']) != PathId(paths[j])
    ensures var id := PathId(paths[j]).value;
      var r := LoadAll(s, paths, meta, read).state;
      id in r.cima && FirstMatch(meta, id).Some? && r.cima[id] == Entry(paths[j], meta[FirstMatch(meta, id).value], read)
  {
    var n := |paths| - 1;
    var id := PathId(paths[j]).value;
    var prev := LoadAll(s, paths[..n], meta, read);
    assert prev.error.None?;
    assert Stem(paths[n]) != [];
    LoadFileEffect(prev.state, paths[n], meta, read);
    if j < n {
      assert forall j' :: j < j' < n ==> paths[..n][j'] == paths[j'];
      assert paths[..n][j] == paths[j];
      LoadAllLastWins(s, paths[..n], meta, read, j);
    }
  }

  /** Extending the file prefix by one file either keeps an earlier error or runs one more iteration of the loop. */
  lemma LoadAllStep(s: LoadState, paths: seq<string>, i: nat, meta: seq<MetaRow>, read: string -> Table)
    requires i < |paths|
    ensures var prev := LoadAll(s, paths[..i], meta, read);
      LoadAll(s, paths[..i + 1], meta, read) ==
        if prev.error.Some? then prev
        else match LoadFile(prev.state, paths[i], meta, read)
          case Failure(e) => LoadOutcome(prev.state, Some(e))
          case Success(next) => LoadOutcome(next, None)
  {
    assert paths[..i + 1][..i] == paths[..i];
  }

  /** Once a prefix of the files ends in an error, the loop stops there. */
  lemma {:induction false} LoadAllFailurePersists(s: LoadState, paths: seq<string>, i: nat, meta: seq<MetaRow>, read: string -> Table)
    requires i <= |paths| && LoadAll(s, paths[..i], meta, read).error.Some?
    ensures LoadAll(s, paths, meta, read) == LoadAll(s, paths[..i], meta, read)
    decreases |paths| - i
  {
    if i < |paths| {
      LoadAllStep(s, paths, i, meta, read);
      LoadAllFailurePersists(s, paths, i + 1, meta, read);
    } else {
      assert paths[..i] == paths;
    }
  }

  /** load completes exactly when every selected file has a non-empty stem. */
  lemma {:induction false} LoadAllCompletes(s: LoadState, paths: seq<string>, meta: seq<MetaRow>, read: string -> Table)
    ensures LoadAll(s, paths, meta, read).error.None? <==> forall j :: 0 <= j < |paths| ==> Stem(paths[j]) != []
  {
    if paths != [] {
      var n := |paths| - 1;
      LoadAllCompletes(s, paths[..n], meta, read);
      assert forall j :: 0 <= j < n ==> paths[..n][j] == paths[j];
    }
  }

  /** When load fails, it stopped at the first file with an empty stem, keeping what the earlier files stored. */
  lemma {:induction false} LoadAllStops(s: LoadState, paths: seq<string>, meta: seq<MetaRow>, read: string -> Table)
    ensures var r := LoadAll(s, paths, meta, read);
      r.error.Some? ==> exists j :: 0 <= j < |paths| && Stem(paths[j]) == [] && r.error == Some(EmptyStem(paths[j]))
                          && (forall j' :: 0 <= j' < j ==> Stem(paths[j']) != [])
                          && r.state == LoadAll(s, paths[..j], meta, read).state
  {
    if paths != [] {
      var n := |paths| - 1;
      var prev := LoadAll(s, paths[..n], meta, read);
      var r := LoadAll(s, paths, meta, read);
      if prev.error.Some? {
        LoadAllStops(s, paths[..n], meta, read);
        var j :| 0 <= j < n && Stem(paths[..n][j]) == [] && prev.error == Some(EmptyStem(paths[..n][j]))
                   && (forall j' :: 0 <= j' < j ==> Stem(paths[..n][j']) != [])
                   && prev.state == LoadAll(s, paths[..n][..j], meta, read).state;
        assert paths[..n][..j] == paths[..j];
        assert paths[..n][j] == paths[j];
        assert forall j' :: 0 <= j' < j ==> paths[..n][j'] == paths[j'];
      } else if Stem(paths[n]) == [] {
        LoadAllCompletes(s, paths[..n], meta, read);
        assert forall j' :: 0 <= j' < n ==> paths[..n][j'] == paths[j'];
        assert r.error == Some(EmptyStem(paths[n])) && r.state == prev.state;
      }
    }
  }
}
