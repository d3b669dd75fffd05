/**
 * The scan `re.search` performs: try each start position in turn, from left
 * to right, and stop at the first one where the pattern matches.
 */
module Search {
  import opened Wrappers

  /** The first position q in p..last at which `at(q)` reports a match. */
  function FirstFrom<X>(at: nat -> Option<X>, p: nat, last: nat): (r: Option<nat>)
    ensures r.Some? ==> p <= r.value <= last && at(r.value).Some?
    decreases if p <= last then last - p + 1 else 0
  {
    if p > last then None
    else if at(p).Some? then Some(p)
    else FirstFrom(at, p + 1, last)
  }

  /**
   * The position reported is the leftmost one: nothing matches between p
   * and it, and when none is reported nothing matches in p..last.
   */
  lemma {:induction false} FirstFromIsFirst<X>(at: nat -> Option<X>, p: nat, last: nat)
    ensures FirstFrom(at, p, last).Some? ==>
      forall q :: p <= q < FirstFrom(at, p, last).value ==> at(q).None?
    ensures FirstFrom(at, p, last).None? ==> forall q :: p <= q <= last ==> at(q).None?
    decreases if p <= last then last - p + 1 else 0
  {
    if p <= last && at(p).None? {
      FirstFromIsFirst(at, p + 1, last);
    }
  }
}
