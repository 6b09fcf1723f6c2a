/** The catalogue of room node types the editor offers, and the lookups it makes in it. */
module RoomNodeTypes {
  import opened Wrappers

  /**
   * A room node type, reduced to the members the node graph code reads: its display name, whether
   * the editor's popup lists it, and the two distinguished flags used when nodes are created.
   */
  datatype RoomNodeType = RoomNodeType(
    roomNodeTypeName: string,
    displayInNodeGraphEditor: bool,
    isEntrance: bool,
    isNone: bool)

  predicate IsEntranceType(t: RoomNodeType) { t.isEntrance }

  predicate IsNoneType(t: RoomNodeType) { t.isNone }

  /**
   * `List<T>.Find(match)`: the first element of `list` satisfying `p`, or nothing (C# `null`)
   * when no element does.
   */
  function FindFirst(list: seq<RoomNodeType>, p: RoomNodeType -> bool): (r: Option<RoomNodeType>)
    ensures r.None? <==> forall i :: 0 <= i < |list| ==> !p(list[i])
    ensures r.Some? ==>
      exists i :: 0 <= i < |list| && list[i] == r.value && p(list[i]) &&
        forall j :: 0 <= j < i ==> !p(list[j])
  {
    if list == [] then None
    else if p(list[0]) then Some(list[0])
    else
      var r := FindFirst(list[1..], p);
      assert r.Some? ==> (exists i :: 0 < i < |list| && list[i] == r.value && p(list[i]) &&
                                   forall j :: 0 <= j < i ==> !p(list[j])) by {
        if r.Some? {
          var i :| 0 <= i < |list[1..]| && list[1..][i] == r.value && p(list[1..][i]) &&
            forall j :: 0 <= j < i ==> !p(list[1..][j]);
          assert list[i + 1] == r.value;
          forall j | 0 <= j < i + 1 ensures !p(list[j]) {
            if j > 0 { assert list[j] == list[1..][j - 1]; }
          }
        }
      }
      assert r.None? ==> forall i :: 0 <= i < |list| ==> !p(list[i]) by {
        if r.None? {
          forall i | 0 <= i < |list| ensures !p(list[i]) {
            if i > 0 { assert list[i] == list[1..][i - 1]; }
          }
        }
      }
      r
  }
}
