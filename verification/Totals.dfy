/** The sum of a weight over a sequence, for measures that add up what each service may do. */
module Totals {
  function Total<T>(vs: seq<T>, weight: T -> nat): nat {
    if vs == [] then 0 else weight(vs[0]) + Total(vs[1..], weight)
  }

  lemma {:induction false} TotalUpdate<T>(vs: seq<T>, weight: T -> nat, i: nat, v: T)
    requires i < |vs|
    ensures Total(vs[i := v], weight) == Total(vs, weight) - weight(vs[i]) + weight(v)
  {
    if i == 0 {
      assert vs[i := v][1..] == vs[1..];
    } else {
      TotalUpdate(vs[1..], weight, i - 1, v);
      assert vs[i := v][1..] == vs[1..][i - 1 := v];
    }
  }
}
