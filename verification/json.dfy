/** The JSON values that request payloads decode to and that `to_dict`
    results are serialised as. Object key order is not modelled. */
module Json {

  datatype Value =
    | Null
    | Bool(b: bool)
    | Int(i: int)
    | Real(r: real)
    | Str(s: string)
    | Arr(items: seq<Value>)
    | Obj(fields: map<string, Value>)

  /** `j` nests at most `d` containers deep: scalars have depth 0, an array
      or object one more than its deepest element. */
  predicate DepthAtMost(j: Value, d: nat)
    decreases d
  {
    match j
    case Arr(items) => d > 0 && forall i | 0 <= i < |items| :: DepthAtMost(items[i], d - 1)
    case Obj(fields) => d > 0 && forall k | k in fields :: DepthAtMost(fields[k], d - 1)
    case _ => true
  }

  lemma {:induction false} DepthAtMostMonotonic(j: Value, d: nat, e: nat)
    requires DepthAtMost(j, d) && d <= e
    ensures DepthAtMost(j, e)
    decreases d
  {
    match j
    case Arr(items) =>
      forall i | 0 <= i < |items| ensures DepthAtMost(items[i], e - 1) {
        DepthAtMostMonotonic(items[i], d - 1, e - 1);
      }
    case Obj(fields) =>
      forall k | k in fields ensures DepthAtMost(fields[k], e - 1) {
        DepthAtMostMonotonic(fields[k], d - 1, e - 1);
      }
    case _ =>
  }
}
