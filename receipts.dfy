/** The read-receipt table: message id -> addresses that have read it, in first-read order. */
module Receipts {
  import opened IpLists

  type Table = map<int, seq<string>>

  /** The readers of `id`, empty when it has none. */
  function ReadersOf(t: Table, id: int): seq<string> {
    if id in t then t[id] else []
  }

  /** No address is listed twice as a reader of one message. */
  ghost predicate WellFormed(t: Table) {
    forall id :: id in t ==> Distinct(t[id])
  }

  /** Whether `ip` is already recorded as a reader of `id`: then marking changes nothing. */
  predicate HasRead(t: Table, id: int, ip: string) {
    ip in ReadersOf(t, id)
  }

  /** The table after `ip` marks `id` as read. */
  function Mark(t: Table, id: int, ip: string): (r: Table)
    ensures HasRead(r, id, ip)
    ensures HasRead(t, id, ip) ==> r == t
    ensures |ReadersOf(t, id)| <= |ReadersOf(r, id)| <= |ReadersOf(t, id)| + 1
    ensures ReadersOf(t, id) == ReadersOf(r, id)[..|ReadersOf(t, id)|]
    ensures forall i :: i != id ==> (i in r <==> i in t) && (i in t ==> r[i] == t[i])
  {
    if HasRead(t, id, ip) then t else t[id := ReadersOf(t, id) + [ip]]
  }

  /** Marking twice is marking once. */
  lemma MarkIdempotent(t: Table, id: int, ip: string)
    ensures Mark(Mark(t, id, ip), id, ip) == Mark(t, id, ip)
  {
  }

  /**
   * On a well-formed table, after marking, `ip` is listed exactly once among the
   * readers of `id`, the table stays well formed and no other message changes.
   */
  lemma MarkRecordsOnce(t: Table, id: int, ip: string)
    requires WellFormed(t)
    ensures var r := Mark(t, id, ip);
      && multiset(ReadersOf(r, id))[ip] == 1
      && WellFormed(r)
      && r.Keys <= t.Keys + {id}
      && (forall i :: i in t && i != id ==> i in r && r[i] == t[i])
  {
    var r := Mark(t, id, ip);
    if !HasRead(t, id, ip) {
      AppendDistinct(ReadersOf(t, id), ip);
      assert r[id] == ReadersOf(t, id) + [ip];
    }
    DistinctOnce(ReadersOf(r, id), ip);
  }
}
