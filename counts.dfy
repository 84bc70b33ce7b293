/** The counter map as values: what one Get or Delete does to it, and what runs of Gets return. */
module Counts {

  type CountMap = map<string, nat>

  /** The stored count of id; an id never seen reads as 0 (Go's zero value for a missing key). */
  function CountOf(counts: CountMap, id: string): nat {
    if id in counts then counts[id] else 0
  }

  /** The map after one Get(id): the count of id goes up by one, every other id keeps its count. */
  function AfterGet(counts: CountMap, id: string): (next: CountMap)
    ensures id in next && CountOf(next, id) == CountOf(counts, id) + 1
    ensures next.Keys == counts.Keys + {id}
    ensures forall other :: other != id ==> CountOf(next, other) == CountOf(counts, other)
  {
    counts[id := CountOf(counts, id) + 1]
  }

  /** The map after one Delete(id): id is gone, every other id keeps its count. */
  function AfterDelete(counts: CountMap, id: string): (next: CountMap)
    ensures id !in next && CountOf(next, id) == 0
    ensures next.Keys == counts.Keys - {id}
    ensures forall other :: other != id ==> CountOf(next, other) == CountOf(counts, other)
  {
    counts - {id}
  }

  /** The values n successive Get(id) calls return, and the map they leave behind. */
  function Gets(counts: CountMap, id: string, n: nat): (CountMap, seq<nat>)
    decreases n
  {
    if n == 0 then (counts, [])
    else
      var (after, replies) := Gets(counts, id, n - 1);
      (AfterGet(after, id), replies + [CountOf(after, id)])
  }

  /** n successive Gets of id return c, c + 1, ..., c + n - 1 where c is the count before them,
      leave c + n stored, and leave every other id alone. */
  lemma {:induction false} GetsCountUp(counts: CountMap, id: string, n: nat)
    ensures Gets(counts, id, n).1 == seq(n, k => CountOf(counts, id) + k)
    ensures CountOf(Gets(counts, id, n).0, id) == CountOf(counts, id) + n
    ensures forall other :: other != id ==> CountOf(Gets(counts, id, n).0, other) == CountOf(counts, other)
    decreases n
  {
    if n > 0 {
      GetsCountUp(counts, id, n - 1);
    }
  }

  /** After Delete(id), whatever the count was, n successive Gets of id return 0, 1, ..., n - 1. */
  lemma DeleteRestarts(counts: CountMap, id: string, n: nat)
    ensures Gets(AfterDelete(counts, id), id, n).1 == seq(n, k => k)
  {
    GetsCountUp(AfterDelete(counts, id), id, n);
  }
}
