/** Sentinels and flags shared by the graph, the heap and the classifier. */
module Constants {

  /** The largest finite double, used as the "infinite" path cost. */
  const FLOAT_MAX: real := 179769313486231570814527423731704356798070567525844996598917476803157260780028538760589558632766878171540458953514382464234321326889464182768467546703537516986049910576551282076245490090389328944075868508455133942304583236903222948165808559332123348274797826204144723168738177180919299881250404026184124858368.0

  /** The "no predecessor" marker stored in a node's pred field. */
  const NIL: int := -1

  /** Whether a node is a root of the forest. */
  datatype Status = Standard | Prototype

  /** Queue membership of an index: never queued, queued, removed. */
  datatype Color = White | Gray | Black
}
