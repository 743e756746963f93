/** Weighted averages over exact rationals. */
module Averages {
  import opened Rounding

  /** A value with the weight it enters an average with. */
  datatype Weighted = Weighted(value: real, weight: real)

  function WeightSum(items: seq<Weighted>): real {
    if items == [] then 0.0 else WeightSum(items[..|items| - 1]) + items[|items| - 1].weight
  }

  function ProductSum(items: seq<Weighted>): real {
    if items == [] then 0.0
    else ProductSum(items[..|items| - 1]) + items[|items| - 1].value * items[|items| - 1].weight
  }

  lemma SumsOfMore(items: seq<Weighted>, item: Weighted)
    ensures ProductSum(items + [item]) == ProductSum(items) + item.value * item.weight
    ensures WeightSum(items + [item]) == WeightSum(items) + item.weight
  {
    assert (items + [item])[..|items|] == items;
  }

  predicate PositiveWeights(items: seq<Weighted>) {
    forall i :: 0 <= i < |items| ==> items[i].weight > 0.0
  }

  predicate Within(items: seq<Weighted>, low: real, high: real) {
    forall i :: 0 <= i < |items| ==> low <= items[i].value <= high
  }

  lemma {:induction false} SumsAreBounded(items: seq<Weighted>, low: real, high: real)
    requires PositiveWeights(items) && Within(items, low, high)
    ensures items != [] ==> WeightSum(items) > 0.0
    ensures low * WeightSum(items) <= ProductSum(items) <= high * WeightSum(items)
  {
    if items != [] {
      var front, last := items[..|items| - 1], items[|items| - 1];
      SumsAreBounded(front, low, high);
      assert WeightSum(items) == WeightSum(front) + last.weight;
      MultiplyKeepsOrder(low, last.value, last.weight);
      MultiplyKeepsOrder(last.value, high, last.weight);
      Distribute(low, WeightSum(front), last.weight);
      Distribute(high, WeightSum(front), last.weight);
    }
  }

  lemma Distribute(a: real, b: real, c: real)
    ensures a * (b + c) == a * b + a * c
  {
  }

  lemma MeanBetween(sum: real, weight: real, low: real, high: real)
    requires weight > 0.0 && low * weight <= sum <= high * weight
    ensures low <= sum / weight <= high
  {
    DivideKeepsOrder(low * weight, sum, weight);
    DivideKeepsOrder(sum, high * weight, weight);
    DivideUndoesMultiply(low, weight);
    DivideUndoesMultiply(high, weight);
  }

  /** Positions of a smallest and a largest value. */
  lemma {:induction false} Extremes(items: seq<Weighted>) returns (lo: nat, hi: nat)
    requires items != []
    ensures lo < |items| && hi < |items|
    ensures Within(items, items[lo].value, items[hi].value)
  {
    if |items| == 1 {
      lo, hi := 0, 0;
    } else {
      var n := |items| - 1;
      lo, hi := Extremes(items[..n]);
      lo := if items[n].value < items[lo].value then n else lo;
      hi := if items[n].value > items[hi].value then n else hi;
    }
  }

  /** Two lists with the same weights whose values differ by at most `slack`. */
  predicate CloseValues(a: seq<Weighted>, b: seq<Weighted>, slack: real) {
    && |a| == |b|
    && forall i :: 0 <= i < |a| ==> a[i].weight == b[i].weight && b[i].value - slack <= a[i].value <= b[i].value + slack
  }

  /** Then the averages differ by at most `slack` too. */
  lemma CloseAverages(a: seq<Weighted>, b: seq<Weighted>, slack: real)
    requires PositiveWeights(a) && CloseValues(a, b, slack)
    requires WeightSum(a) > 0.0 && WeightSum(b) > 0.0
    ensures Mean(b) - slack <= Mean(a) <= Mean(b) + slack
  {
    CloseSums(a, b, slack);
    SameQuotient(a, WeightSum(b));
    CloseQuotients(ProductSum(a), ProductSum(b), WeightSum(b), slack);
  }

  function Mean(items: seq<Weighted>): real
    requires WeightSum(items) > 0.0
  {
    ProductSum(items) / WeightSum(items)
  }

  lemma SameQuotient(items: seq<Weighted>, total: real)
    requires WeightSum(items) > 0.0 && total == WeightSum(items)
    ensures Mean(items) == ProductSum(items) / total
  {
  }

  lemma CloseQuotients(p: real, q: real, w: real, slack: real)
    requires w > 0.0 && q - slack * w <= p <= q + slack * w
    ensures q / w - slack <= p / w <= q / w + slack
  {
    DivideKeepsOrder(q - slack * w, p, w);
    DivideKeepsOrder(p, q + slack * w, w);
    DivideUndoesMultiply(slack, w);
    DivideSum(q, slack * w, w);
  }

  lemma DivideSum(a: real, b: real, w: real)
    requires w > 0.0
    ensures (a + b) / w == a / w + b / w && (a - b) / w == a / w - b / w
  {
  }

  lemma {:induction false} CloseSums(a: seq<Weighted>, b: seq<Weighted>, slack: real)
    requires PositiveWeights(a) && CloseValues(a, b, slack)
    ensures WeightSum(a) == WeightSum(b)
    ensures a != [] ==> WeightSum(a) > 0.0
    ensures ProductSum(b) - slack * WeightSum(b) <= ProductSum(a) <= ProductSum(b) + slack * WeightSum(b)
  {
    if a != [] {
      var n := |a| - 1;
      var p, q, w := ProductSum(a[..n]), ProductSum(b[..n]), WeightSum(b[..n]);
      CloseSums(a[..n], b[..n], slack);
      LastIsAdded(a);
      LastIsAdded(b);
      CloseStep(p, q, w, a[n].value, b[n].value, b[n].weight, slack);
    }
  }

  lemma LastIsAdded(a: seq<Weighted>)
    requires a != []
    ensures var n := |a| - 1;
            WeightSum(a) == WeightSum(a[..n]) + a[n].weight && ProductSum(a) == ProductSum(a[..n]) + a[n].value * a[n].weight
  {
  }

  lemma CloseStep(p: real, q: real, w: real, x: real, y: real, weight: real, slack: real)
    requires q - slack * w <= p <= q + slack * w
    requires y - slack <= x <= y + slack && weight > 0.0
    ensures q + y * weight - slack * (w + weight) <= p + x * weight <= q + y * weight + slack * (w + weight)
  {
    MultiplyKeepsOrder(y - slack, x, weight);
    MultiplyKeepsOrder(x, y + slack, weight);
    Distribute(weight, y, slack);
    Distribute(weight, y, -slack);
    Distribute(slack, w, weight);
  }

  // ---------------------------------------------------------------- balance

  /** The weighted deviation of a value from `a`. */
  function Pull(value: real, weight: real, a: real): real {
    weight * (value - a)
  }

  /** The weighted deviations of items. */
  function Excess(items: seq<Weighted>, a: real): real {
    ProductSum(items) - a * WeightSum(items)
  }

  lemma ExcessGrows(items: seq<Weighted>, item: Weighted, a: real)
    ensures Excess(items + [item], a) == Excess(items, a) + Pull(item.value, item.weight, a)
  {
    SumsOfMore(items, item);
    Distribute(a, WeightSum(items), item.weight);
    Distribute(item.weight, item.value, -a);
  }

  /** The mean of items with positive weights is where they balance. */
  lemma MeanBalances(items: seq<Weighted>)
    requires items != [] && PositiveWeights(items)
    ensures WeightSum(items) > 0.0
    ensures Excess(items, ProductSum(items) / WeightSum(items)) == 0.0
  {
    var lo, hi := Extremes(items);
    SumsAreBounded(items, items[lo].value, items[hi].value);
    DivideUndoesMultiply(ProductSum(items), WeightSum(items));
  }
}
