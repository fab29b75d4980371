/** Bounded diagnostics: the first ones are kept, up to the limit. */
module Retention {
  import opened Models

  function Kept<T>(limits: ResourceLimits, items: seq<T>): (kept: seq<T>) {
    if |items| <= limits.maxDiagnostics then items
    else if limits.maxDiagnostics < 0 then []
    else items[..limits.maxDiagnostics]
  }

  lemma KeptAppend<T>(limits: ResourceLimits, items: seq<T>, last: T)
    ensures Kept(limits, items + [last])
            == if |Kept(limits, items)| < limits.maxDiagnostics then Kept(limits, items) + [last]
               else Kept(limits, items)
    ensures |Kept(limits, items)| <= |items|
  {
  }
}
