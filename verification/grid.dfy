/**
  The 25x25 world grid as a sequence of cells, `true` for an orange
  (activated) cell and `false` for a gray (base) one, and the activation
  pass that turns gray cells orange by coin flip.
 */
module Grid {

  const GridRows: nat := 25
  const GridCols: nat := 25
  const GridSize: nat := GridRows * GridCols

  /** `n` gray cells, as created by the grid initialisation and restored by a reset. */
  function Gray(n: nat): seq<bool> {
    seq(n, _ => false)
  }

  predicate AllGray(cells: seq<bool>) {
    forall i :: 0 <= i < |cells| ==> !cells[i]
  }

  /**
    One activation pass. `flips[i]` is the outcome of the random draw for
    cell i (the draw came out at or below the activation chance); a cell
    that is already orange stays orange.
   */
  function Activate(cells: seq<bool>, flips: seq<bool>): (r: seq<bool>)
    requires |flips| == |cells|
    ensures |r| == |cells|
  {
    if cells == [] then [] else [cells[0] || flips[0]] + Activate(cells[1..], flips[1..])
  }

  /** After a pass, a cell is orange exactly when it was orange or its flip came up. */
  lemma {:induction false} ActivatePointwise(cells: seq<bool>, flips: seq<bool>)
    requires |flips| == |cells|
    ensures forall i :: 0 <= i < |cells| ==> (Activate(cells, flips)[i] <==> cells[i] || flips[i])
  {
    if cells != [] {
      ActivatePointwise(cells[1..], flips[1..]);
      var r := Activate(cells, flips);
      assert forall i :: 1 <= i < |cells| ==> r[i] == Activate(cells[1..], flips[1..])[i - 1];
    }
  }

  /** A pass never turns an orange cell gray. */
  lemma ActivateKeepsOrange(cells: seq<bool>, flips: seq<bool>)
    requires |flips| == |cells|
    ensures forall i :: 0 <= i < |cells| && cells[i] ==> Activate(cells, flips)[i]
  {
    ActivatePointwise(cells, flips);
  }

  /** Repeating a pass with the same draws changes nothing more. */
  lemma ActivateIdempotent(cells: seq<bool>, flips: seq<bool>)
    requires |flips| == |cells|
    ensures Activate(Activate(cells, flips), flips) == Activate(cells, flips)
  {
    var r := Activate(cells, flips);
    ActivatePointwise(cells, flips);
    ActivatePointwise(r, flips);
  }

  /** The number of orange cells. */
  function CountOrange(cells: seq<bool>): (n: nat)
    ensures n <= |cells|
  {
    if cells == [] then 0 else (if cells[0] then 1 else 0) + CountOrange(cells[1..])
  }

  /** The number of gray cells whose flip came up: the cells a pass turns orange. */
  function NewlyActivated(cells: seq<bool>, flips: seq<bool>): nat
    requires |flips| == |cells|
  {
    if cells == [] then 0
    else (if !cells[0] && flips[0] then 1 else 0) + NewlyActivated(cells[1..], flips[1..])
  }

  /** A pass adds exactly the newly activated cells to the orange count, never more than there were gray ones. */
  lemma {:induction false} ActivateCount(cells: seq<bool>, flips: seq<bool>)
    requires |flips| == |cells|
    ensures CountOrange(Activate(cells, flips)) == CountOrange(cells) + NewlyActivated(cells, flips)
    ensures NewlyActivated(cells, flips) <= |cells| - CountOrange(cells)
  {
    if cells != [] {
      ActivateCount(cells[1..], flips[1..]);
      var r := Activate(cells, flips);
      assert r[1..] == Activate(cells[1..], flips[1..]);
    }
  }

  /** A gray grid has no orange cell. */
  lemma {:induction false} CountOrangeGray(n: nat)
    ensures AllGray(Gray(n)) && CountOrange(Gray(n)) == 0
  {
    if n > 0 {
      CountOrangeGray(n - 1);
      assert Gray(n)[1..] == Gray(n - 1);
    }
  }
}
