/** The per-dataset metadata table and the lookup `metadata.loc[metadata["ID"] == file_id]`. */
module Metadata {
  import opened Wrappers

  /** One metadata row: subject ID, clinical label (the CP column) and frame rate (the FPS column). */
  datatype MetaRow = MetaRow(id: string, cp: int, fps: real)

  /** Some row of the table carries this ID. */
  predicate HasId(meta: seq<MetaRow>, id: string)
  {
    exists i :: 0 <= i < |meta| && meta[i].id == id
  }

  /** The position of the first row with this ID (`.iloc[0]` of the selection), if any. */
  function FirstMatch(meta: seq<MetaRow>, id: string): (r: Option<nat>)
    ensures r.Some? ==> r.value < |meta| && meta[r.value].id == id
  {
    if meta == [] then None
    else if meta[0].id == id then Some(0)
    else
      match FirstMatch(meta[1..], id)
      case None => None
      case Some(k) =>
        assert meta[k + 1] == meta[1..][k];
        Some(k + 1)
  }

  /** No position exactly when no row carries the ID; otherwise every earlier row carries another ID. */
  lemma {:induction false} FirstMatchSpec(meta: seq<MetaRow>, id: string)
    ensures var r := FirstMatch(meta, id);
      && (r.None? <==> !HasId(meta, id))
      && (r.Some? ==> forall i :: 0 <= i < r.value ==> meta[i].id != id)
  {
    if meta != [] && meta[0].id != id {
      FirstMatchSpec(meta[1..], id);
      assert forall i :: 1 <= i < |meta| ==> meta[i] == meta[1..][i - 1];
    }
  }

  /** Rows after the first match never change which row is used. */
  lemma {:induction false} FirstMatchAppend(meta: seq<MetaRow>, more: seq<MetaRow>, id: string)
    requires HasId(meta, id)
    ensures FirstMatch(meta + more, id) == FirstMatch(meta, id)
  {
    FirstMatchSpec(meta, id);
    FirstMatchSpec(meta + more, id);
    var k := FirstMatch(meta, id).value;
    var r := FirstMatch(meta + more, id);
    assert (meta + more)[k] == meta[k];
    assert r.Some? && r.value <= k;
  }
}
