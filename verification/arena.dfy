/** Nodes live in an arena and are known by their index; -1 is the null pointer. */
module Arena {

  const NULL := -1

  datatype Side = OnLeft | OnRight
  {
    function Other(): Side { if OnLeft? then OnRight else OnLeft }
  }

  ghost predicate SameOn<T>(m: seq<T>, m': seq<T>, s: set<nat>) {
    |m| == |m'| && forall n <- s :: n < |m| ==> m'[n] == m[n]
  }
}
