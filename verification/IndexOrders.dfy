/** Orders of the indexes of a list, as the in-place index sorts rearrange them. */
module IndexOrders {
  /** Every index of n once. */
  ghost predicate IndexOrder(order: seq<nat>, n: nat)
  {
    && |order| == n
    && (forall i :: 0 <= i < n ==> i in order)
    && (forall i :: 0 <= i < n ==> order[i] < n)
    && (forall i, j :: 0 <= i < j < n ==> order[i] != order[j])
  }

  lemma OrderInRange(order: seq<nat>, n: nat)
    requires IndexOrder(order, n)
    ensures |order| == n && forall i :: 0 <= i < n ==> order[i] < n
  {
  }

  lemma SwapKeepsOrder(order: seq<nat>, n: nat, i: nat, j: nat)
    requires IndexOrder(order, n) && i < j < n
    ensures IndexOrder(order[i := order[j]][j := order[i]], n)
  {
    var swapped := order[i := order[j]][j := order[i]];
    forall x | 0 <= x < n
      ensures x in swapped
    {
      assert x in order;
      var p :| 0 <= p < |order| && order[p] == x;
      assert swapped[if p == i then j else if p == j then i else p] == x;
    }
  }

  /** 0, 1, 2, ... */
  method Identity(n: nat) returns (order: array<nat>)
    ensures fresh(order) && IndexOrder(order[..], n)
  {
    order := new nat[n](i => i);
    assert forall i :: 0 <= i < n ==> order[..][i] == i;
    forall i | 0 <= i < n
      ensures i in order[..]
    {
      assert order[..][i] == i;
    }
  }
}
