/** The contagious-contact finder of tsir.c:15-34 and the skip table it reads
    (tsir.c:110-117): given the sorted contact times of one edge and the time `now` at which
    one endpoint became infected, find the contact that transmits, or report that none does. */
module ContactFinder {
  import opened Machine
  import opened TemporalNetwork
  import opened Pcg

  /** `NONE`: no transmission along this edge in this trial; also the unset value of a node's
      time and heap position. tsir.h is not part of this model; `UINT_MAX` is assumed. */
  const NoneMark: Uint32 := 0xFFFF_FFFF

  /** `END`: the edge has no contact later than `now`, so it never will again in this trial.
      `UINT_MAX - 1` is assumed, as for `NoneMark`. */
  const EndMark: Uint32 := 0xFFFF_FFFE

  /** Number of entries of the skip table `rnd2inx`, one per 16-bit draw. */
  const SkipTableSize: nat := 0x10000

  /** A skip table: one entry per 16-bit draw, each clamped to `USHRT_MAX`. */
  ghost predicate SkipTable(skip: seq<Uint32>)
  {
    |skip| == SkipTableSize && forall i :: 0 <= i < |skip| ==> skip[i] <= UshrtMax
  }

  /** A contact-time list the finder accepts: non-empty (`hi = nt - 1` must be an index),
      sorted (the bisection relies on it), short enough that `lo + hi` cannot wrap (the
      limit the comment at tsir.c:22 points out), and free of the two sentinel values. */
  ghost predicate ContactTimes(t: seq<Uint32>)
  {
    && 0 < |t| <= 0x8000_0000
    && Sorted(t)
    && forall i :: 0 <= i < |t| ==> t[i] < EndMark
  }

  /** The clamp of tsir.c:115: a skip count above `USHRT_MAX` is stored as `USHRT_MAX`.
      `x` is the floating-point value after truncation, which does not change the comparison
      with an integer. */
  function Clamp(x: nat): (r: nat)
    ensures r <= UshrtMax && r <= x
    ensures r == x || r == UshrtMax
  {
    if x > UshrtMax then UshrtMax else x
  }

  /** The skip-table fill of tsir.c:111-117. For `beta < 1` entry `i` is the clamped value
      of `d * log((i + 1) / 65536)`, given here by the input function `scaled`; otherwise
      every entry is 0 (every later contact transmits). */
  method FillSkipTable(betaBelowOne: bool, scaled: nat -> nat) returns (table: array<Uint32>)
    ensures fresh(table) && table.Length == SkipTableSize
    ensures forall i :: 0 <= i < SkipTableSize ==>
      table[i] == if betaBelowOne then Clamp(scaled(i)) else 0
    ensures SkipTable(table[..])
  {
    table := new Uint32[SkipTableSize];
    var i := 0;
    while i < SkipTableSize
      invariant 0 <= i <= SkipTableSize
      invariant forall j :: 0 <= j < i ==>
        table[j] == if betaBelowOne then Clamp(scaled(j)) else 0
    {
      table[i] := if betaBelowOne then Clamp(scaled(i)) else 0;
      i := i + 1;
    }
  }

  /** What `contagious_contact` returns for contact times `t`, time `now` and skip count
      `s` (the table entry of the 16-bit draw): `END` when no contact is later than `now`,
      otherwise the contact `s` places after the first later one, or `NONE` past the end. */
  function ContactOutcome(t: seq<Uint32>, now: Uint32, s: nat): (r: Uint32)
    requires |t| > 0
    ensures r == EndMark || r == NoneMark || r in t
  {
    if Last(t) <= now then EndMark
    else
      var k := FirstAfter(t, now) + s;
      if k >= |t| then NoneMark else t[k]
  }

  /** The finder answers `END` exactly when every contact is at or before `now`. */
  lemma EndIffNoLaterContact(t: seq<Uint32>, now: Uint32, s: nat)
    requires ContactTimes(t)
    ensures ContactOutcome(t, now, s) == EndMark <==> forall j :: 0 <= j < |t| ==> t[j] <= now
  {
    if Last(t) <= now {
      forall j | 0 <= j < |t| ensures t[j] <= now {
        assert t[j] <= t[|t| - 1];
      }
    }
  }

  /** When some contact is later than `now`, the finder answers `NONE` exactly when the skip
      carries the index past the last contact. */
  lemma NoneIffSkippedPastEnd(t: seq<Uint32>, now: Uint32, s: nat)
    requires ContactTimes(t) && Last(t) > now
    ensures ContactOutcome(t, now, s) == NoneMark <==> FirstAfter(t, now) + s >= |t|
  {
  }

  /** A time the finder returns is a contact of the list `s` places after the first later
      one, and it is strictly later than `now`. */
  lemma FoundContactIsLater(t: seq<Uint32>, now: Uint32, s: nat)
    requires ContactTimes(t)
    requires ContactOutcome(t, now, s) != EndMark && ContactOutcome(t, now, s) != NoneMark
    ensures var k := FirstAfter(t, now) + s;
      k < |t| && ContactOutcome(t, now, s) == t[k] && t[k] > now
  {
    var k := FirstAfter(t, now) + s;
    FirstAfterSplits(t, now, k);
  }

  /** With a zero skip (an all-zero table, `beta >= 1`), the finder returns the earliest
      contact strictly later than `now`. */
  lemma ZeroSkipGivesFirstLater(t: seq<Uint32>, now: Uint32)
    requires ContactTimes(t) && Last(t) > now
    ensures var r := ContactOutcome(t, now, 0);
      && r in t && r > now
      && forall j :: 0 <= j < |t| && t[j] > now ==> r <= t[j]
  {
    var k := FirstAfter(t, now);
    forall j | 0 <= j < |t| && t[j] > now ensures t[k] <= t[j] {
      FirstAfterSplits(t, now, j);
    }
  }

  /** The early `break` of tsir.c:54 is safe: when the neighbour lists are ordered by
      non-increasing last contact, once one list yields `END` every later one does too,
      whatever skip it would draw. */
  lemma EndIsFinal(lists: seq<seq<Uint32>>, i: nat, j: nat, now: Uint32, s: nat, s': nat)
    requires ByLastContact(lists)
    requires i < j < |lists| && ContactTimes(lists[i]) && ContactTimes(lists[j])
    requires ContactOutcome(lists[i], now, s) == EndMark
    ensures ContactOutcome(lists[j], now, s') == EndMark
  {
    EndIffNoLaterContact(lists[i], now, s);
  }

  /** One call of `contagious_contact` on the 16-bit draw cache `c`: the answer and the cache
      it leaves. `END` is decided before the draw, so it leaves the cache as it was. */
  function ContactDraw(t: seq<Uint32>, now: Uint32, skip: seq<Uint32>, c: Cache16): (r: (Uint32, Cache16))
    requires ContactTimes(t) && SkipTable(skip)
    ensures r.0 == EndMark <==> Last(t) <= now
    ensures r.0 == EndMark ==> r.1 == c
    ensures r.0 != EndMark ==> r.1 == Draw16(c).0
    ensures r.0 != EndMark && r.0 != NoneMark ==> now < r.0 && r.0 in t
  {
    if Last(t) <= now then (EndMark, c)
    else
      var d := Draw16(c);
      var k := skip[d.1 as int];
      var o := ContactOutcome(t, now, k);
      assert o != NoneMark ==> now < o by {
        if o != NoneMark {
          FoundContactIsLater(t, now, k);
        }
      }
      (o, d.0)
  }

  /** `contagious_contact`: the early `END` exit, the bisection for the first contact later
      than `now`, one 16-bit draw indexing the skip table, and the `NONE` check. */
  method ContagiousContact(t: seq<Uint32>, now: Uint32, skip: seq<Uint32>, rng: Generator)
    returns (r: Uint32)
    requires ContactTimes(t) && SkipTable(skip)
    modifies rng
    ensures Last(t) <= now ==> r == EndMark && unchanged(rng)
    ensures Last(t) > now ==>
      var (c, x) := Draw16(Cache16(old(rng.state), old(rng.exist), old(rng.rmem)));
      && Cache16(rng.state, rng.exist, rng.rmem) == c
      && r == ContactOutcome(t, now, skip[x as int])
    ensures r != EndMark && r != NoneMark ==> now < r
    ensures (r, Cache16(rng.state, rng.exist, rng.rmem))
      == ContactDraw(t, now, skip, Cache16(old(rng.state), old(rng.exist), old(rng.rmem)))
  {
    var lo: Uint32, hi: Uint32 := 0, |t| - 1;
    if t[hi] <= now {
      return EndMark;
    }
    while lo < hi
      invariant 0 <= lo <= hi < |t|
      invariant t[hi] > now
      invariant forall j :: 0 <= j < lo ==> t[j] <= now
      decreases hi - lo
    {
      var mid: Uint32 := Add32(lo, hi) / 2;
      if t[mid] > now {
        hi := mid;
      } else {
        forall j | 0 <= j <= mid ensures t[j] <= now {
          assert t[j] <= t[mid];
        }
        lo := mid + 1;
      }
    }
    assert hi == FirstAfter(t, now);
    var x := rng.Next16();
    hi := Add32(hi, skip[x as int]);
    if hi >= |t| {
      return NoneMark;
    }
    r := t[hi];
    assert t[FirstAfter(t, now)] <= r;
  }
}
