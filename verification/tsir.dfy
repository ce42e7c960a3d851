/** The event-driven SIR engine of tsir.c: per-node scheduled times and heap positions, the
    1-indexed binary min-heap of pending infection events ordered by time, the list of
    processed (infected) nodes, `infect` and the outbreak driver `sir`.

    The heap routines `up_heap` and `del_root` live in code that is not part of this model;
    `UpHeap`, `DownHeap` and `DelRoot` below are one implementation of the contract the engine
    needs from them. `S(you)`, likewise not shown, is read as "not yet processed in this
    trial", which is `!Processed(you)`. */
module Tsir {
  import opened Machine
  import opened TemporalNetwork
  import opened Pcg
  import opened Counting
  import opened Sampler
  import opened ContactFinder
  import opened EventHeap

  /** The network the engine reads: `nb[v][i]` is the i-th neighbour of node `v` and
      `ct[v][i]` the contact times of that edge; node identities lie below `n`, no node is its
      own neighbour, and every contact list is one the finder accepts. */
  ghost predicate WellFormedNetwork(n: nat, nb: seq<seq<nat>>, ct: seq<seq<seq<Uint32>>>)
  {
    && |nb| == n && |ct| == n
    && (forall v :: 0 <= v < n ==> |ct[v]| == |nb[v]|)
    && (forall v, i :: 0 <= v < n && 0 <= i < |nb[v]| ==> nb[v][i] < n && nb[v][i] != v)
    && (forall v, i :: 0 <= v < n && 0 <= i < |ct[v]| ==> ContactTimes(ct[v][i]))
  }

  /** What the neighbour loop of `infect` (tsir.c:49-68) reads besides the node times and the
      16-bit draw cache: the infected node `me`, its infection time `now`, its neighbours and
      their contact lists, the processed nodes and the skip table. */
  datatype Infector = Infector(me: nat, now: Uint32, nbs: seq<nat>, cts: seq<seq<Uint32>>,
                               done: seq<nat>, skip: seq<Uint32>)

  /** The neighbour loop's inputs fit node times for `n` nodes. */
  ghost predicate InfectorFits(w: Infector, n: nat)
  {
    && w.me < n && |w.cts| == |w.nbs| && SkipTable(w.skip)
    && forall i :: 0 <= i < |w.nbs| ==> w.nbs[i] < n && w.nbs[i] != w.me && ContactTimes(w.cts[i])
  }

  /** One pass of the neighbour loop for neighbour `i` (tsir.c:50-66), on node times `ts` and
      draw cache `c`: a processed neighbour is passed over; otherwise `contagious_contact`
      answers, `END` stops the loop, and a time no later than `me`'s recovery time `ts[me]`
      and earlier than the neighbour's time becomes the neighbour's time. The result is the
      `break` flag, the times and the cache after the pass. */
  ghost function Pass(w: Infector, i: nat, ts: seq<Uint32>, c: Cache16): (r: (bool, seq<Uint32>, Cache16))
    requires InfectorFits(w, |ts|) && i < |w.nbs|
    ensures |r.1| == |ts|
    ensures r.0 <==> w.nbs[i] !in w.done && Last(w.cts[i]) <= w.now
    ensures r.0 ==> r.1 == ts && r.2 == c
    ensures r.1 == ts || var you := w.nbs[i];
      && you !in w.done && r.1 == ts[you := r.1[you]]
      && w.now < r.1[you] <= ts[w.me] && r.1[you] < ts[you]
  {
    var you := w.nbs[i];
    if you in w.done then (false, ts, c)
    else
      var (t, c') := ContactDraw(w.cts[i], w.now, w.skip, c);
      if t == EndMark then (true, ts, c)
      else if t <= ts[w.me] && t < ts[you] then (false, ts[you := t], c')
      else (false, ts, c')
  }

  /** The neighbour loop from neighbour `i` on: the node times and the draw cache it leaves. */
  ghost function Sweep(w: Infector, i: nat, ts: seq<Uint32>, c: Cache16): (r: (seq<Uint32>, Cache16))
    requires InfectorFits(w, |ts|) && i <= |w.nbs|
    ensures |r.0| == |ts|
    decreases |w.nbs| - i
  {
    if i == |w.nbs| then (ts, c)
    else
      var (stop, ts', c') := Pass(w, i, ts, c);
      if stop then (ts, c) else Sweep(w, i + 1, ts', c')
  }

  /** The loop only moves times earlier, and only those of unprocessed neighbours, each to a
      contact after `now` no later than `me`'s recovery time, which itself is untouched. */
  lemma {:induction false} SweepOnlyLowers(w: Infector, i: nat, ts: seq<Uint32>, c: Cache16)
    requires InfectorFits(w, |ts|) && i <= |w.nbs|
    ensures var ts' := Sweep(w, i, ts, c).0;
      && ts'[w.me] == ts[w.me]
      && (forall v :: 0 <= v < |ts| ==> ts'[v] <= ts[v])
      && (forall v :: 0 <= v < |ts| && ts'[v] != ts[v] ==>
            v in w.nbs && v !in w.done && w.now < ts'[v] <= ts[w.me])
    decreases |w.nbs| - i
  {
    if i < |w.nbs| {
      var (stop, ts1, c1) := Pass(w, i, ts, c);
      if !stop {
        SweepOnlyLowers(w, i + 1, ts1, c1);
        assert w.nbs[i] in w.nbs;
      }
    }
  }

  /** A pass that reaches an unprocessed neighbour whose transmitting contact `t` comes no
      later than `me`'s recovery leaves it scheduled at `t` or earlier at the end of the loop. */
  lemma SweepSchedules(w: Infector, i: nat, ts: seq<Uint32>, c: Cache16)
    requires InfectorFits(w, |ts|) && i < |w.nbs| && w.nbs[i] !in w.done
    ensures var t := ContactDraw(w.cts[i], w.now, w.skip, c).0;
      t != EndMark && t <= ts[w.me] ==> Sweep(w, i, ts, c).0[w.nbs[i]] <= t
  {
    var (stop, ts1, c1) := Pass(w, i, ts, c);
    if !stop {
      SweepOnlyLowers(w, i + 1, ts1, c1);
    }
  }

  /** The per-trial state of tsir.c: `time` and `pos` are the `time` and `heap` fields of the
      node records, `heap[1..nheap]` is `g.heap`, `infected[..ni]` is `g.i`. */
  class Engine {
    const n: nat
    const nb: seq<seq<nat>>
    const ct: seq<seq<seq<Uint32>>>
    const dur: Uint32
    const skip: seq<Uint32>
    const logTime: bv32 -> Uint32
    const fuel: nat
    const rng: Generator
    const time: array<Uint32>
    const pos: array<Uint32>
    const heap: array<nat>
    const infected: array<nat>
    var nheap: nat
    var ni: nat

    /** The fixed inputs and the array sizes. */
    ghost predicate Fixed()
      reads {}
    {
      && 0 < n < UintMax && 0 < dur
      && WellFormedNetwork(n, nb, ct) && SkipTable(skip)
      && time.Length == n && pos.Length == n && heap.Length == n + 1 && infected.Length == n
      && time != pos && heap != infected
    }

    /** The fixed inputs and the bounds on the heap and processed-list sizes. */
    ghost predicate Shape()
      reads this
    {
      Fixed() && nheap <= n && ni <= n
    }

    /** The heap of pending events: slots and positions agree (`Slots`). */
    ghost predicate HeapSlots()
      requires Shape()
      reads this, pos, heap
    {
      Slots(heap[..], pos[..], nheap)
    }

    /** The heap of pending events is ordered by scheduled time. */
    ghost predicate HeapOrdered()
      requires Shape()
      reads this, time, heap
    {
      Ordered(time[..], heap[..], nheap)
    }

    /** Node `v` has been processed (infected and taken off the heap) in this trial. */
    ghost predicate Processed(v: nat)
      requires Shape()
      reads this, infected
    {
      v in infected[..ni]
    }

    /** Processed nodes are distinct nodes without a heap position. */
    ghost predicate ProcessedDistinct()
      requires Shape()
      reads this, pos, infected
    {
      && (forall i :: 0 <= i < ni ==> infected[i] < n && pos[infected[i]] == NoneMark)
      && (forall i, j :: 0 <= i < j < ni ==> infected[i] != infected[j])
    }

    /** A node that is neither processed nor on the heap has no scheduled time. */
    ghost predicate Idle(v: nat)
      requires Shape() && v < n
      reads this, time, pos, infected
    {
      Processed(v) || pos[v] != NoneMark || time[v] == NoneMark
    }

    /** The engine's invariant between two events. */
    ghost predicate Valid()
      reads this, time, pos, heap, infected
    {
      && Shape() && HeapSlots() && HeapOrdered() && ProcessedDistinct()
      && forall v :: 0 <= v < n ==> Idle(v)
    }

    /** The invariant while `me`, just taken off the heap, is being processed. */
    ghost predicate InFlight(me: nat)
      reads this, time, pos, heap, infected
    {
      && Shape() && HeapSlots() && HeapOrdered() && ProcessedDistinct()
      && me < n && pos[me] == NoneMark && !Processed(me)
      && forall v :: 0 <= v < n && v != me ==> Idle(v)
    }

    /** The generator's 16-bit draw cache. */
    ghost function Cache(): Cache16
      reads rng
    {
      Cache16(rng.state, rng.exist, rng.rmem)
    }

    /** The inputs of the neighbour loop when `me` was infected at `now`. */
    ghost function Infecting(me: nat, now: Uint32): (w: Infector)
      requires Shape() && me < n
      reads this, infected
      ensures InfectorFits(w, n)
    {
      Infector(me, now, nb[me], ct[me], infected[..ni], skip)
    }

    /** The state between trials: an empty heap and every node unscheduled. */
    ghost predicate Clean()
      requires Shape()
      reads this, time, pos
    {
      nheap == 0 && forall v :: 0 <= v < n ==> time[v] == NoneMark && pos[v] == NoneMark
    }

    /** Allocation and the initialisation of tsir.c:122-126: every node unscheduled. */
    constructor (n: nat, nb: seq<seq<nat>>, ct: seq<seq<seq<Uint32>>>, dur: Uint32,
                 skip: seq<Uint32>, logTime: bv32 -> Uint32, fuel: nat, rng: Generator)
      requires 0 < n < UintMax && 0 < dur
      requires WellFormedNetwork(n, nb, ct) && SkipTable(skip)
      ensures Valid() && Clean() && ni == 0
      ensures this.rng == rng && this.n == n && this.nb == nb && this.ct == ct
      ensures this.dur == dur && this.skip == skip && this.logTime == logTime && this.fuel == fuel
      ensures fresh(time) && fresh(pos) && fresh(heap) && fresh(infected)
    {
      this.n, this.nb, this.ct, this.dur := n, nb, ct, dur;
      this.skip, this.logTime, this.fuel, this.rng := skip, logTime, fuel, rng;
      time := new Uint32[n](_ => NoneMark);
      pos := new Uint32[n](_ => NoneMark);
      heap := new nat[n + 1](_ => 0);
      infected := new nat[n](_ => 0);
      nheap, ni := 0, 0;
    }

    /** Exchange the nodes of two live slots and record their new positions. */
    method Exchange(i: nat, j: nat)
      requires Shape() && HeapSlots() && 1 <= i <= nheap && 1 <= j <= nheap && i != j
      modifies heap, pos
      ensures heap[..] == SwapSlots(old(heap[..]), i, j)
      ensures pos[..] == SwapPositions(old(heap[..]), old(pos[..]), i, j)
    {
      var x, y := heap[i], heap[j];
      heap[i], heap[j] := y, x;
      pos[y] := i;
      pos[x] := j;
    }

    /** Sift up from slot `start` after the time of its node decreased (or after it was
        appended): restores heap order, keeps the same nodes on the heap. */
    method UpHeap(start: nat)
      requires Shape() && HeapSlots() && 1 <= start <= nheap
      requires OrderedExcept(time[..], heap[..], nheap, start)
      requires Bridged(time[..], heap[..], nheap, start)
      modifies heap, pos
      ensures HeapSlots() && HeapOrdered()
      ensures forall v :: 0 <= v < n ==> (pos[v] == NoneMark) == (old(pos[v]) == NoneMark)
    {
      var k := start;
      while k > 1 && time[heap[k]] < time[heap[k / 2]]
        invariant 1 <= k <= nheap
        invariant HeapSlots()
        invariant OrderedExcept(time[..], heap[..], nheap, k)
        invariant Bridged(time[..], heap[..], nheap, k)
        invariant forall v :: 0 <= v < n ==> (pos[v] == NoneMark) == (old(pos[v]) == NoneMark)
        decreases k
      {
        SwapUp(k);
        k := k / 2;
      }
      UpDone(time[..], heap[..], nheap, k);
    }

    /** One step of the sift up: slot `k`, earlier than its parent, changes place with it. */
    method SwapUp(k: nat)
      requires Shape() && HeapSlots() && 2 <= k <= nheap
      requires OrderedExcept(time[..], heap[..], nheap, k) && Bridged(time[..], heap[..], nheap, k)
      requires time[heap[k]] < time[heap[k / 2]]
      modifies heap, pos
      ensures HeapSlots()
      ensures OrderedExcept(time[..], heap[..], nheap, k / 2) && Bridged(time[..], heap[..], nheap, k / 2)
      ensures forall v :: 0 <= v < n ==> (pos[v] == NoneMark) == (old(pos[v]) == NoneMark)
    {
      UpStep(time[..], heap[..], nheap, k);
      SwapKeepsSlots(heap[..], pos[..], nheap, k, k / 2);
      Exchange(k, k / 2);
    }

    /** One step of the sift down: slot `k` changes place with its earliest child `s`. */
    method SwapDown(k: nat, s: nat)
      requires Shape() && HeapSlots() && 1 <= k && (s == 2 * k || s == 2 * k + 1) && s <= nheap
      requires OrderedBelow(time[..], heap[..], nheap, k) && Bridged(time[..], heap[..], nheap, k)
      requires time[heap[s]] < time[heap[k]]
      requires 2 * k <= nheap ==> time[heap[s]] <= time[heap[2 * k]]
      requires 2 * k + 1 <= nheap ==> time[heap[s]] <= time[heap[2 * k + 1]]
      modifies heap, pos
      ensures HeapSlots()
      ensures OrderedBelow(time[..], heap[..], nheap, s) && Bridged(time[..], heap[..], nheap, s)
      ensures forall v :: 0 <= v < n ==> (pos[v] == NoneMark) == (old(pos[v]) == NoneMark)
    {
      DownStep(time[..], heap[..], nheap, k, s);
      SwapKeepsSlots(heap[..], pos[..], nheap, k, s);
      Exchange(k, s);
    }

    /** The slot among `k` and its live children whose node is earliest, `k` on ties. */
    method EarliestOfThree(k: nat) returns (s: nat)
      requires Shape() && HeapSlots() && 1 <= k <= nheap
      ensures s == k || ((s == 2 * k || s == 2 * k + 1) && s <= nheap)
      ensures var ts, h := time[..], heap[..];
        && (s != k ==> ts[h[s]] < ts[h[k]])
        && (2 * k <= nheap ==> ts[h[s]] <= ts[h[2 * k]])
        && (2 * k + 1 <= nheap ==> ts[h[s]] <= ts[h[2 * k + 1]])
    {
      s := k;
      if 2 * k <= nheap && time[heap[2 * k]] < time[heap[s]] {
        s := 2 * k;
      }
      if 2 * k + 1 <= nheap && time[heap[2 * k + 1]] < time[heap[s]] {
        s := 2 * k + 1;
      }
    }

    /** Sift down from slot `start` when only the order between it and its children may be
        broken: restores heap order, keeps the same nodes on the heap. */
    method DownHeap(start: nat)
      requires Shape() && HeapSlots() && 1 <= start <= nheap
      requires OrderedBelow(time[..], heap[..], nheap, start)
      requires Bridged(time[..], heap[..], nheap, start)
      modifies heap, pos
      ensures HeapSlots() && HeapOrdered()
      ensures forall v :: 0 <= v < n ==> (pos[v] == NoneMark) == (old(pos[v]) == NoneMark)
    {
      var k := start;
      var done := false;
      while !done
        invariant 1 <= k <= nheap
        invariant HeapSlots()
        invariant OrderedBelow(time[..], heap[..], nheap, k)
        invariant Bridged(time[..], heap[..], nheap, k)
        invariant done ==> HeapOrdered()
        invariant forall v :: 0 <= v < n ==> (pos[v] == NoneMark) == (old(pos[v]) == NoneMark)
        decreases nheap - k + (if done then 0 else 1)
      {
        var s := EarliestOfThree(k);
        if s == k {
          DownDone(time[..], heap[..], nheap, k);
          done := true;
        } else {
          SwapDown(k, s);
          k := s;
        }
      }
    }

    /** Take the earliest event off the heap: the last slot moves to the root and sifts down,
        and the removed node loses its heap position. */
    method DelRoot() returns (me: nat)
      requires Valid() && nheap >= 1
      modifies `nheap, heap, pos
      ensures me == old(heap[1]) && nheap == old(nheap) - 1
      ensures InFlight(me)
      ensures forall v :: 0 <= v < n && v != me ==> (pos[v] == NoneMark) == (old(pos[v]) == NoneMark)
      ensures forall k :: 1 <= k <= old(nheap) ==> old(time[heap[1]]) <= old(time[heap[k]])
    {
      RootIsEarliest(time[..], heap[..], nheap);
      me := Detach();
      if nheap > 0 {
        DownHeap(1);
      }
      forall v | 0 <= v < n && v != me ensures Idle(v) {
        assert old(Idle(v));
      }
    }

    /** The last slot's node moves to the root and the root's node loses its position; only
        the order below the root may be broken. */
    method Detach() returns (me: nat)
      requires Valid() && nheap >= 1
      modifies `nheap, heap, pos
      ensures me == old(heap[1]) && nheap == old(nheap) - 1
      ensures Shape() && HeapSlots() && ProcessedDistinct()
      ensures me < n && pos[me] == NoneMark && !Processed(me)
      ensures OrderedBelow(time[..], heap[..], nheap, 1)
      ensures forall v :: 0 <= v < n && v != me ==> (pos[v] == NoneMark) == (old(pos[v]) == NoneMark)
    {
      ghost var h0: seq<nat>, p0: seq<Uint32>, m0 := heap[..], pos[..], nheap;
      RemoveRootKeepsSlots(time[..], h0, p0, m0);
      me := heap[1];
      var last := heap[nheap];
      heap[1] := last;
      pos[last] := 1;
      nheap := nheap - 1;
      pos[me] := NoneMark;
      assert heap[..] == h0[1 := h0[m0]];
      assert pos[..] == p0[h0[m0] := 1 as Uint32][h0[1] := NoneMark];
      assert !Processed(me) by {
        assert old(pos[me]) != NoneMark;
      }
    }

    /** Commit an earlier infection time `t` for `you` (tsir.c:60-65): set the time, append
        `you` to the heap at slot `nheap + 1` when it had no position, and sift it up. */
    method Schedule(me: nat, you: nat, t: Uint32)
      requires InFlight(me) && you < n && you != me && !Processed(you) && t < time[you]
      modifies time, `nheap, heap, pos
      ensures InFlight(me)
      ensures time[..] == old(time[..])[you := t] && pos[you] != NoneMark
      ensures forall v :: 0 <= v < n && v != you ==> (pos[v] == NoneMark) == (old(pos[v]) == NoneMark)
      ensures nheap == old(nheap) + (if old(pos[you]) == NoneMark then 1 else 0)
    {
      if pos[you] == NoneMark {
        Insert(me, you, t);
      } else {
        Lower(me, you, t);
      }
    }

    /** A node not yet on the heap gets time `t` and is appended at slot `nheap + 1`, with
        that slot as its position, then sifted up. */
    method Insert(me: nat, you: nat, t: Uint32)
      requires InFlight(me) && you < n && you != me && !Processed(you) && pos[you] == NoneMark
      modifies time, `nheap, heap, pos
      ensures InFlight(me)
      ensures time[..] == old(time[..])[you := t] && pos[you] != NoneMark
      ensures forall v :: 0 <= v < n && v != you ==> (pos[v] == NoneMark) == (old(pos[v]) == NoneMark)
      ensures nheap == old(nheap) + 1
    {
      HeapHasRoom(me, you);
      Append(you, t);
      UpHeap(nheap);
      forall v | 0 <= v < n && v != me ensures Idle(v) {
        assert old(Idle(v));
      }
    }

    /** `you` gets time `t` and the slot `nheap + 1`; only the order above that slot may be
        broken. */
    method Append(you: nat, t: Uint32)
      requires Shape() && HeapSlots() && HeapOrdered() && ProcessedDistinct()
      requires you < n && !Processed(you) && pos[you] == NoneMark && nheap + 2 <= n
      modifies time, `nheap, heap, pos
      ensures Shape() && HeapSlots() && ProcessedDistinct() && nheap == old(nheap) + 1
      ensures OrderedExcept(time[..], heap[..], nheap, nheap)
      ensures Bridged(time[..], heap[..], nheap, nheap)
      ensures time[..] == old(time[..])[you := t] && pos[you] == nheap
      ensures forall v :: 0 <= v < n && v != you ==> pos[v] == old(pos[v])
    {
      ghost var ts, h, p, m := time[..], heap[..], pos[..], nheap;
      AppendKeepsSlots(ts, h, p, m, you, t);
      forall i | 0 <= i < ni
        ensures infected[i] != you
      {
        assert infected[i] in infected[..ni];
      }
      time[you] := t;
      nheap := nheap + 1;
      heap[nheap] := you;
      pos[you] := nheap;
      assert time[..] == ts[you := t];
      assert heap[..] == h[m + 1 := you];
      assert pos[..] == p[you := (m + 1) as Uint32];
    }

    /** A node already on the heap gets the earlier time `t` and is sifted up from its slot. */
    method Lower(me: nat, you: nat, t: Uint32)
      requires InFlight(me) && you < n && you != me && pos[you] != NoneMark && t <= time[you]
      modifies time, heap, pos
      ensures InFlight(me)
      ensures time[..] == old(time[..])[you := t] && pos[you] != NoneMark
      ensures forall v :: 0 <= v < n ==> (pos[v] == NoneMark) == (old(pos[v]) == NoneMark)
    {
      LowerKeepsOrderBelow(time[..], heap[..], pos[..], nheap, you, t);
      time[you] := t;
      assert time[..] == old(time[..])[you := t];
      UpHeap(pos[you]);
      forall v | 0 <= v < n && v != me ensures Idle(v) {
        assert old(Idle(v));
      }
    }

    /** The heap has a free slot for a node that is not on it, because the infector `me` is
        not on it either. */
    lemma HeapHasRoom(me: nat, you: nat)
      requires Shape() && HeapSlots() && me < n && you < n && me != you
      requires pos[me] == NoneMark && pos[you] == NoneMark
      ensures nheap + 2 <= n
    {
      var s := heap[1..nheap + 1] + [you, me];
      forall i, j | 0 <= i < j < |s| ensures s[i] != s[j] {
        if j < nheap {
          assert pos[s[i]] == i + 1 && pos[s[j]] == j + 1;
        }
      }
      DistinctBelow(s, n);
    }

    /** The processed list has a free slot for the node being processed. */
    lemma InfectedHasRoom(me: nat)
      requires Shape() && ProcessedDistinct() && me < n && !Processed(me)
      ensures ni < n
    {
      var s := infected[..ni] + [me];
      forall i, j | 0 <= i < j < |s| ensures s[i] != s[j] {
      }
      DistinctBelow(s, n);
    }

    /** `infect`: process the earliest event. The duration is drawn; when it is positive the
        node's time becomes its recovery time and each susceptible neighbour, in list order,
        may be scheduled at an earlier contact time; the node is then recorded as processed. */
    method Infect()
      requires Valid() && nheap >= 1
      modifies `nheap, `ni, time, pos, heap, infected, rng
      ensures Valid()
      ensures ni == old(ni) + 1 && infected[old(ni)] == old(heap[1])
      ensures forall i :: 0 <= i < old(ni) ==> infected[i] == old(infected[i])
      ensures var me, now := old(heap[1]), old(time[heap[1]]);
        var d := ExpDuration(Output(old(rng.state)), logTime);
        && (forall k :: 1 <= k <= old(nheap) ==> now <= old(time[heap[k]]))
        && time[me] == (if d > 0 then Add32(now, d) else now)
        && (forall v :: 0 <= v < n && v != me ==> time[v] <= old(time[v]))
        && (forall v :: 0 <= v < n && v != me && time[v] != old(time[v]) ==> now < time[v] <= time[me])
        && (d == 0 ==> forall v :: 0 <= v < n && v != me ==>
              time[v] == old(time[v]) && (pos[v] == NoneMark) == (old(pos[v]) == NoneMark))
      ensures var me, now := old(heap[1]), old(time[heap[1]]);
        var d := ExpDuration(Output(old(rng.state)), logTime);
        var c := Cache16(Advance(old(rng.state)), old(rng.exist), old(rng.rmem));
        && (d > 0 ==> (time[..], Cache()) == Sweep(old(Infecting(me, now)), 0, old(time[..])[me := Add32(now, d)], c))
        && (d == 0 ==> time[..] == old(time[..]) && Cache() == c)
    {
      var me := heap[1];
      var now := time[me];
      var duration := Exptime(rng, logTime);
      me := DelRoot();
      Process(me, now, duration);
    }

    /** The work on `me`, taken off the heap at `now`, once its infectious duration is
        drawn: recovery and the neighbour loop when the duration is positive, then the
        processed list. */
    method Process(me: nat, now: Uint32, duration: Uint32)
      requires InFlight(me) && time[me] == now
      modifies `nheap, `ni, time, pos, heap, infected, rng
      ensures Valid()
      ensures ni == old(ni) + 1 && infected[old(ni)] == me
      ensures forall i :: 0 <= i < old(ni) ==> infected[i] == old(infected[i])
      ensures time[me] == (if duration > 0 then Add32(now, duration) else now)
      ensures forall v :: 0 <= v < n && v != me ==> time[v] <= old(time[v])
      ensures forall v :: 0 <= v < n && v != me && time[v] != old(time[v]) ==> now < time[v] <= time[me]
      ensures duration == 0 ==> forall v :: 0 <= v < n && v != me ==>
        time[v] == old(time[v]) && pos[v] == old(pos[v])
      ensures duration > 0 ==>
        (time[..], Cache()) == Sweep(old(Infecting(me, now)), 0, old(time[..])[me := Add32(now, duration)], old(Cache()))
      ensures duration == 0 ==> time[..] == old(time[..]) && Cache() == old(Cache())
    {
      if duration > 0 {
        Recover(me, Add32(now, duration));
        ScanNeighbours(me, now);
      }
      Record(me);
    }

    /** `n[me].time += duration`: the processed node's time becomes its recovery time. */
    method Recover(me: nat, recovery: Uint32)
      requires InFlight(me)
      modifies time
      ensures InFlight(me)
      ensures time[..] == old(time[..])[me := recovery]
    {
      OffHeapTimeKeepsOrder(time[..], heap[..], pos[..], nheap, me, recovery);
      time[me] := recovery;
      assert time[..] == old(time[..])[me := recovery];
      forall v | 0 <= v < n && v != me ensures Idle(v) {
        assert old(Idle(v));
      }
    }

    /** `g.i[g.ni++] = me` (tsir.c:71): the node joins the processed list. */
    method Record(me: nat)
      requires InFlight(me)
      modifies `ni, infected
      ensures Valid()
      ensures ni == old(ni) + 1 && infected[old(ni)] == me
      ensures forall i :: 0 <= i < old(ni) ==> infected[i] == old(infected[i])
    {
      InfectedHasRoom(me);
      infected[ni] := me;
      ni := ni + 1;
      assert infected[..ni] == old(infected[..ni]) + [me];
      forall v | 0 <= v < n ensures Idle(v) {
        if v != me {
          assert old(Idle(v));
        }
      }
    }

    /** The neighbour loop of tsir.c:49-68 for node `me`, infected at `now` and recovering at
        `time[me]`. */
    method ScanNeighbours(me: nat, now: Uint32)
      requires InFlight(me)
      modifies `nheap, time, pos, heap, rng
      ensures InFlight(me)
      ensures time[me] == old(time[me])
      ensures forall v :: 0 <= v < n && v != me ==> time[v] <= old(time[v])
      ensures forall v :: 0 <= v < n && v != me && time[v] != old(time[v]) ==> now < time[v] <= time[me]
      ensures (time[..], Cache()) == Sweep(Infecting(me, now), 0, old(time[..]), old(Cache()))
    {
      ghost var w := Infecting(me, now);
      ghost var goal := Sweep(w, 0, time[..], Cache());
      SweepOnlyLowers(w, 0, time[..], Cache());
      var i := 0;
      while i < |nb[me]|
        invariant i <= |nb[me]|
        invariant InFlight(me) && w == Infecting(me, now)
        invariant Sweep(w, i, time[..], Cache()) == goal
      {
        ghost var ts, c := time[..], Cache();
        var stop := Consider(me, i, now);
        if stop {
          assert (time[..], Cache()) == (ts, c);
          break;
        }
        i := i + 1;
      }
    }

    /** One pass of the neighbour loop for `nb[me][i]`: an unprocessed neighbour's first
        transmitting contact, when there is one before `me` recovers and before the
        neighbour's current time, is scheduled. `stop` is the `break` on `END`. */
    method Consider(me: nat, i: nat, now: Uint32) returns (stop: bool)
      requires InFlight(me) && i < |nb[me]|
      modifies `nheap, time, pos, heap, rng
      ensures InFlight(me)
      ensures (stop, time[..], Cache()) == Pass(Infecting(me, now), i, old(time[..]), old(Cache()))
    {
      stop := false;
      if nb[me][i] !in infected[..ni] {
        stop := Reach(me, i, now);
      }
    }

    /** The pass for an unprocessed neighbour: draw its contagious contact, stop on `END`,
        otherwise offer the contact. */
    method Reach(me: nat, i: nat, now: Uint32) returns (stop: bool)
      requires InFlight(me) && i < |nb[me]| && !Processed(nb[me][i])
      modifies `nheap, time, pos, heap, rng
      ensures InFlight(me)
      ensures (stop, time[..], Cache()) == Pass(Infecting(me, now), i, old(time[..]), old(Cache()))
    {
      ghost var w, ts, c := Infecting(me, now), time[..], Cache();
      ghost var done := infected[..ni];
      var t := NextContact(me, i, now);
      stop := t == EndMark;
      if !stop {
        Offer(me, nb[me][i], t, now);
      }
      assert infected[..ni] == done;
      assert w == Infecting(me, now);
      assert Pass(w, i, ts, c) == (stop, time[..], Cache());
    }

    /** `contagious_contact` on the contact times of `me`'s `i`-th edge (tsir.c:53): the
        answer and the draw cache it leaves are `ContactDraw`'s; only the generator changes. */
    method NextContact(me: nat, i: nat, now: Uint32) returns (t: Uint32)
      requires InFlight(me) && i < |nb[me]|
      modifies rng
      ensures InFlight(me)
      ensures t != EndMark && t != NoneMark ==> now < t
      ensures (t, Cache()) == ContactDraw(ct[me][i], now, skip, old(Cache()))
    {
      t := ContagiousContact(ct[me][i], now, skip, rng);
    }

    /** `if ((t <= n[me].time) && (t < n[you].time))` (tsir.c:59-65), with the `time` of `me`
        already its recovery time: schedule `you` at `t` when `t` is no later than that and
        earlier than `you`'s own time; otherwise nothing changes. */
    method Offer(me: nat, you: nat, t: Uint32, now: Uint32)
      requires InFlight(me) && you < n && you != me && !Processed(you)
      requires t != NoneMark ==> now < t
      modifies `nheap, time, pos, heap
      ensures InFlight(me)
      ensures time[me] == old(time[me])
      ensures forall v :: 0 <= v < n && v != me ==> time[v] <= old(time[v])
      ensures forall v :: 0 <= v < n && v != me && time[v] != old(time[v]) ==> now < time[v] <= time[me]
      ensures time[..] == if t <= old(time[me]) && t < old(time[you]) then old(time[..])[you := t] else old(time[..])
      ensures t <= old(time[me]) && t < old(time[you]) ==>
        pos[you] != NoneMark && nheap == old(nheap) + (if old(pos[you]) == NoneMark then 1 else 0)
      ensures !(t <= old(time[me]) && t < old(time[you])) ==> nheap == old(nheap) && pos[..] == old(pos[..])
    {
      if t <= time[me] && t < time[you] {
        Schedule(me, you, t);
        assert time[..] == old(time[..])[you := t];
      }
    }

    /** The start of `sir` (tsir.c:80-87): an empty processed list and a single heap entry,
        a source node below `n` scheduled at a time below `dur`, both drawn by the bounded
        draw. */
    method Seed() returns (source: nat)
      requires Valid() && Clean()
      modifies `nheap, `ni, time, pos, heap, rng
      ensures Valid() && ni == 0 && nheap == 1 && heap[1] == source
      ensures var (s, st) := BoundedDraw(old(rng.state), n, fuel);
        var (t0, _) := BoundedDraw(st, dur, fuel);
        source == s && time[source] == t0
    {
      source := rng.Bounded(n, fuel);
      var t0 := rng.Bounded(dur, fuel);
      Place(source, t0);
    }

    /** An empty processed list and `source`, scheduled at `t0`, alone on the heap. */
    method Place(source: nat, t0: Uint32)
      requires Valid() && Clean() && source < n
      modifies `nheap, `ni, time, pos, heap
      ensures Valid() && ni == 0 && nheap == 1 && heap[1] == source && time[source] == t0
    {
      ni := 0;
      time[source] := t0;
      pos[source] := 1;
      nheap := 1;
      heap[1] := source;
      assert Ordered(time[..], heap[..], nheap);
      forall v | 0 <= v < n ensures Idle(v) {
        if v != source {
          assert old(time[v]) == NoneMark;
        }
      }
    }

    /** The reset of tsir.c:93: every processed node gets its time and heap position back to
        `NONE`; with the heap empty this leaves the engine clean. */
    method Cleanup()
      requires Valid() && nheap == 0
      modifies time, pos
      ensures Valid() && Clean()
    {
      Unschedule();
      forall v | 0 <= v < n ensures time[v] == NoneMark && pos[v] == NoneMark {
        if v !in infected[..ni] {
          assert old(Idle(v));
          assert old(pos[v]) == NoneMark;
        }
      }
      assert Ordered(time[..], heap[..], nheap);
      assert Slots(heap[..], pos[..], nheap);
    }

    /** The loop of tsir.c:93: the time and heap position of every processed node become
        `NONE`; every other node keeps both. */
    method Unschedule()
      requires Shape() && forall i :: 0 <= i < ni ==> infected[i] < n
      modifies time, pos
      ensures forall v :: 0 <= v < n && v in infected[..ni] ==> time[v] == NoneMark && pos[v] == NoneMark
      ensures forall v :: 0 <= v < n && v !in infected[..ni] ==> time[v] == old(time[v]) && pos[v] == old(pos[v])
    {
      var i := 0;
      while i < ni
        invariant 0 <= i <= ni
        invariant forall v :: 0 <= v < n && v in infected[..i] ==> time[v] == NoneMark && pos[v] == NoneMark
        invariant forall v :: 0 <= v < n && v !in infected[..i] ==>
          time[v] == old(time[v]) && pos[v] == old(pos[v])
      {
        var v := infected[i];
        time[v], pos[v] := NoneMark, NoneMark;
        i := i + 1;
        assert infected[..i] == infected[..i - 1] + [v];
      }
    }

    /** `sir`: one outbreak from a random source; the outbreak size is `ni`. The loop ends
        because every event processes a node that was not processed before. */
    method Sir()
      requires Valid() && Clean()
      modifies `nheap, `ni, time, pos, heap, infected, rng
      ensures Valid() && Clean()
      ensures 1 <= ni <= n
      ensures infected[0] == BoundedDraw(old(rng.state), n, fuel).0
    {
      var source := Seed();
      while nheap > 0
        invariant Valid()
        invariant ni == 0 ==> nheap == 1 && heap[1] == source
        invariant ni >= 1 ==> infected[0] == source
        decreases n - ni
      {
        Turn(source);
      }
      Cleanup();
    }

    /** One turn of `while (g.nheap) infect();` (tsir.c:90): one more node is processed,
        and the first processed node is the source, the only node on the first turn's heap. */
    method Turn(source: nat)
      requires Valid() && nheap > 0
      requires ni == 0 ==> nheap == 1 && heap[1] == source
      requires ni >= 1 ==> infected[0] == source
      modifies `nheap, `ni, time, pos, heap, infected, rng
      ensures Valid() && ni == old(ni) + 1 && infected[0] == source
    {
      Infect();
    }
  }
}
