/**
  The subject records that ETL keeps in its `cima` dictionary. A Python dict
  remembers the order in which its keys were first inserted, and create_angles
  walks it in that order, so the model keeps that order beside the map.
*/
module Catalogue {
  import opened Wrappers
  import opened Tables

  /** `{"data": ..., "label": ..., "fps": ...}`: one subject's frames, its label (the CP value) and its frame rate. */
  datatype Subject = Subject(data: Table, cp: int, fps: real)

  /** order lists the given keys, each once. */
  ghost predicate Indexed(order: seq<string>, keys: set<string>)
  {
    NoDup(order) && forall k :: k in keys <==> k in order
  }

  /**
    `cima[key] = value` on an insertion-ordered dict: a new key goes to the end
    of the order, an existing key keeps its place and gets the new value.
  */
  function InsertOrder(order: seq<string>, cima: map<string, Subject>, key: string): (r: seq<string>)
    ensures Indexed(order, cima.Keys) ==> Indexed(r, cima.Keys + {key})
    ensures order <= r
  {
    if key in cima then order else order + [key]
  }
}
