/** Shapes of the temporal-network data both simulators read: contacts, sorted
    timestamp lists, and the "first contact later than now" search they both bisect for. */
module TemporalNetwork {

  /** One contact event: the two endpoints and the time stamp (`CONTACT` in tsir_ref.c,
      one row `(u, v, t)` of the contact array in tsir_compare.py). */
  datatype Contact = Contact(left: nat, right: nat, t: nat)

  /** Timestamps in non-decreasing order. */
  ghost predicate Sorted(t: seq<int>)
  {
    forall i, j :: 0 <= i <= j < |t| ==> t[i] <= t[j]
  }

  /** Contacts in non-decreasing order of time. */
  ghost predicate TimeOrdered(c: seq<Contact>)
  {
    forall i, j :: 0 <= i <= j < |c| ==> c[i].t <= c[j].t
  }

  /** The time stamps of a contact list, in list order. */
  function Times(c: seq<Contact>): (ts: seq<nat>)
    ensures |ts| == |c|
    ensures forall i :: 0 <= i < |c| ==> ts[i] == c[i].t
  {
    if c == [] then [] else [c[0].t] + Times(c[1..])
  }

  /** The index of the first timestamp strictly later than `now`, or `|t|` when there is none. */
  function FirstAfter(t: seq<int>, now: int): (k: nat)
    ensures k <= |t|
    ensures forall j :: 0 <= j < k ==> t[j] <= now
    ensures k < |t| ==> t[k] > now
  {
    if t == [] then 0
    else if t[0] > now then 0
    else 1 + FirstAfter(t[1..], now)
  }

  /** On a sorted list, every timestamp from `FirstAfter` on is later than `now`:
      the index splits the list into "not later" and "later". */
  lemma FirstAfterSplits(t: seq<int>, now: int, j: nat)
    requires Sorted(t) && j < |t|
    ensures j < FirstAfter(t, now) <==> t[j] <= now
  {
    var k := FirstAfter(t, now);
    if k <= j {
      assert t[k] <= t[j];
    }
  }

  /** The last timestamp of a non-empty list. */
  function Last(t: seq<int>): int
    requires |t| > 0
  {
    t[|t| - 1]
  }

  /** Neighbour lists ordered by non-increasing last contact time: the order that lets the
      event-driven engine stop scanning neighbours at the first one with no future contact. */
  ghost predicate ByLastContact(lists: seq<seq<int>>)
  {
    forall i, j :: 0 <= i < j < |lists| && |lists[i]| > 0 && |lists[j]| > 0 ==>
      Last(lists[j]) <= Last(lists[i])
  }
}
