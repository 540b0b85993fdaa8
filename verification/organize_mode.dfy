/**
 * The organize mode chosen in the menu, and its rotation through the
 * `MODES` table.
 */
module OrganizeModes {
  import opened Wrappers

  /** What the organize batch does with each tagged file. */
  datatype OrganizeMode = Copy | Move | Link

  /** The rotation order, as the `MODES` table lists it. */
  const MODES: seq<OrganizeMode> := [Copy, Move, Link]

  /**
   * The mode that follows `mode` in the rotation Copy, Move, Link, Copy, ...:
   * the entry after it in `MODES`, wrapping after the last, and never
   * `mode` itself.
   */
  function Successor(mode: OrganizeMode): (next: OrganizeMode)
    ensures forall i {:trigger MODES[i]} :: 0 <= i < |MODES| && MODES[i] == mode ==> next == MODES[(i + 1) % |MODES|]
    ensures next != mode
  {
    match mode
    case Copy => Move
    case Move => Link
    case Link => Copy
  }

  /** `MODES.iter().position(|x| x == mode)`: the first index holding `mode`. */
  method Position(mode: OrganizeMode) returns (position: Option<nat>)
    ensures position.Some? ==> position.value < |MODES| && MODES[position.value] == mode
    ensures position.Some? ==> forall k :: 0 <= k < position.value ==> MODES[k] != mode
    ensures position.None? <==> mode !in MODES
  {
    position := None;
    var index := 0;
    while index < |MODES|
      invariant index <= |MODES|
      invariant position == None
      invariant forall k :: 0 <= k < index ==> MODES[k] != mode
    {
      if MODES[index] == mode {
        position := Some(index);
        break;
      }
      index := index + 1;
    }
  }

  /** `OrganizeMode::next`: step to the following entry of `MODES`, wrapping after the last. */
  method Next(mode: OrganizeMode) returns (next: OrganizeMode)
    ensures next == Successor(mode)
    ensures next != mode
  {
    next := mode;
    var position := Position(mode);
    EveryModeListedOnce(mode);
    if position.Some? {
      var current := position.value + 1;
      if current > 2 {
        current := 0;
      }
      next := MODES[current];
    }
  }

  /** Every variant stands in `MODES` at exactly one index, so `position` always finds it. */
  lemma EveryModeListedOnce(mode: OrganizeMode)
    ensures mode in MODES
    ensures forall i, j :: 0 <= i < j < |MODES| ==> MODES[i] != MODES[j]
  {
  }

  /** Three steps of the rotation come back to where they started. */
  lemma SuccessorCycle(mode: OrganizeMode)
    ensures Successor(Successor(Successor(mode))) == mode
    ensures Successor(mode) != Successor(Successor(mode))
  {
  }
}
