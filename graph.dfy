/**
 The presenter: `MatPlotLib_Graph` splits the selected (country, share)
 pairs into the parallel lists of pie labels and slice sizes. Drawing the
 chart is not modelled.
 */
module Graph {
  import opened Text

  /** `explode` in `PieChart`: one offset per slice, only the first slice pulled out. */
  const Explode: seq<real> := [0.1, 0.0, 0.0, 0.0, 0.0, 0.0, 0.0, 0.0, 0.0, 0.0]

  class MatPlotLibGraph<V> {
    var labels: seq<String>
    var sizes: seq<V>

    /** Appends the first component of each pair to `labels` and the second to `sizes`, in order. */
    constructor(dataFile: seq<(String, V)>)
      ensures |labels| == |dataFile| && |sizes| == |dataFile|
      ensures forall i :: 0 <= i < |dataFile| ==> labels[i] == dataFile[i].0 && sizes[i] == dataFile[i].1
    {
      labels := [];
      sizes := [];
      new;
      var n := 0;
      while n < |dataFile|
        invariant 0 <= n <= |dataFile|
        invariant |labels| == n && |sizes| == n
        invariant forall i :: 0 <= i < n ==> labels[i] == dataFile[i].0 && sizes[i] == dataFile[i].1
      {
        labels := labels + [dataFile[n].0];
        sizes := sizes + [dataFile[n].1];
        n := n + 1;
      }
    }

    /** `PieChart` gives one `explode` offset per slice only when there are exactly ten slices. */
    predicate ExplodeFits()
      reads this
    {
      |sizes| == |Explode|
    }
  }
}
