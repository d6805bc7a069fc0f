/**
  The list of channels handed to the renderer, rebuilt from the per-channel
  selection check boxes whenever one of them changes.
 */
module Attributes {

  /** Holds when `s` is strictly ascending. */
  predicate StrictlyAscending(s: seq<int>)
  {
    forall a, b | 0 <= a < b < |s| :: s[a] < s[b]
  }

  /** How many of the first `n` channels are selected. */
  function SelectedCount(selection: seq<bool>, n: nat): nat
    requires n <= |selection|
  {
    if n == 0 then 0 else SelectedCount(selection, n - 1) + (if selection[n - 1] then 1 else 0)
  }

  /** The channel indices below `n` whose box is ticked, in the order the
      rebuild loop appends them: the result is strictly ascending and holds
      index `i` exactly when `i < n` and channel `i` is selected. */
  function RenderAttributes(selection: seq<bool>, n: nat): (r: seq<int>)
    requires n <= |selection|
    ensures StrictlyAscending(r)
    ensures forall i :: i in r <==> 0 <= i < n && selection[i]
    ensures |r| == SelectedCount(selection, n)
  {
    if n == 0 then []
    else
      var prefix := RenderAttributes(selection, n - 1);
      assert forall a | 0 <= a < |prefix| :: prefix[a] in prefix;
      if selection[n - 1] then prefix + [n - 1] else prefix
  }

  /** Selecting every channel yields the list 0, 1, ..., n - 1. */
  lemma {:induction false} AllSelected(selection: seq<bool>, n: nat)
    requires n <= |selection| && forall i | 0 <= i < n :: selection[i]
    ensures var r := RenderAttributes(selection, n);
      |r| == n && forall i | 0 <= i < n :: r[i] == i
  {
    if n > 0 {
      AllSelected(selection, n - 1);
      var prefix := RenderAttributes(selection, n - 1);
      assert RenderAttributes(selection, n) == prefix + [n - 1];
    }
  }

  /** Changing the box of channel `c` changes whether `c` is in the list and
      leaves every other channel's membership as it was. */
  lemma ToggleOnlyAffectsChannel(selection: seq<bool>, n: nat, c: int, v: bool)
    requires n <= |selection| && 0 <= c < n
    ensures var r := RenderAttributes(selection, n);
      var r' := RenderAttributes(selection[c := v], n);
      && (c in r' <==> v)
      && forall i | i != c :: i in r' <==> i in r
  {
  }
}
