/** The reference simulator of tsir_ref.c: one global list of contacts in time order,
    scanned from `start_index` of the source's infection time (the first later contact, or
    the last contact when none is later), with one Bernoulli
    draw per contact between an infectious and a susceptible node. A node's state is read
    off its recovery time `rtime` (tsir_ref.c:18-20): `UINT_MAX` is susceptible, a time
    later than the current contact is infectious, any other time is recovered. */
module TsirRef {
  import opened Machine
  import opened TemporalNetwork
  import opened Pcg
  import opened Sampler

  /** `S(x)`: never infected in this trial. */
  predicate Susceptible(r: Uint32)
  {
    r == UintMax
  }

  /** `I(x)` at time `now`: infected and not yet recovered. */
  predicate Infectious(r: Uint32, now: Uint32)
  {
    now < r < UintMax
  }

  /** `R(x)` at time `now`: recovered at or before `now`. */
  predicate Recovered(r: Uint32, now: Uint32)
  {
    r <= now
  }

  /** Below `UINT_MAX`, every node is in exactly one of the three states; at `now ==
      UINT_MAX` a susceptible node also reads as recovered. */
  lemma StatesPartition(r: Uint32, now: Uint32)
    requires now < UintMax
    ensures Susceptible(r) || Infectious(r, now) || Recovered(r, now)
    ensures !(Susceptible(r) && Infectious(r, now))
    ensures !(Susceptible(r) && Recovered(r, now))
    ensures !(Infectious(r, now) && Recovered(r, now))
  {
  }

  /** Contacts whose endpoints are nodes below `n` and whose times fit an `unsigned int`. */
  ghost predicate ContactsFit(cs: seq<Contact>, n: nat)
  {
    forall i :: 0 <= i < |cs| ==> cs[i].left < n && cs[i].right < n && cs[i].t < Modulus32
  }

  /** The state the scan of `sir` carries: recovery times, outbreak size, extinction bound
      `tx` and the generator state. */
  datatype Trial = Trial(rtime: seq<Uint32>, ni: nat, tx: Uint32, state: bv64)

  /** What the scan reads besides its state: the threshold `g.ubeta` a draw must stay below
      to transmit, the duration function of `exptime`, and one 32-bit draw of the generator
      (its output and next state). The lemmas below hold for any generator. */
  datatype Params = Params(ubeta: Uint32, logTime: bv32 -> Uint32, draw: bv64 -> (bv32, bv64))

  /** The draw `pcg_32` makes. */
  function PcgDraw(s: bv64): (d: (bv32, bv64))
  {
    (Output(s), Advance(s))
  }

  /** One Bernoulli trial for `target` over a contact at `now` (tsir_ref.c:101-104): a draw
      below `ubeta` infects it; its recovery time is `now` plus a sampled duration (which
      consumes a second draw), and the extinction bound grows to cover it. */
  function Transmit(st: Trial, target: nat, now: Uint32, p: Params): Trial
    requires target < |st.rtime|
  {
    var (r, s1) := p.draw(st.state);
    if (r as int) < p.ubeta then
      var (r', s2) := p.draw(s1);
      var rec := Add32(now, ExpDuration(r', p.logTime));
      Trial(st.rtime[target := rec], st.ni + 1, if st.tx < rec then rec else st.tx, s2)
    else
      st.(state := s1)
  }

  /** The body of the scan for one contact (tsir_ref.c:100-112): only a contact between an
      infectious and a susceptible node draws, in either direction. */
  function Attempt(st: Trial, c: Contact, p: Params): Trial
    requires c.left < |st.rtime| && c.right < |st.rtime| && c.t < Modulus32
  {
    var me, you, now := c.left, c.right, c.t as Uint32;
    if Infectious(st.rtime[me], now) && Susceptible(st.rtime[you]) then
      Transmit(st, you, now, p)
    else if Susceptible(st.rtime[me]) && Infectious(st.rtime[you], now) then
      Transmit(st, me, now, p)
    else st
  }

  /** The scan loop of tsir_ref.c:95-113 from index `i`: process contacts until the list
      ends or a contact is later than the extinction bound. Also returns where it stopped. */
  function Scan(st: Trial, cs: seq<Contact>, i: nat, p: Params): (res: (Trial, nat))
    requires ContactsFit(cs, |st.rtime|)
    ensures |res.0.rtime| == |st.rtime| && i <= res.1
    decreases |cs| - i
  {
    if i >= |cs| then (st, i)
    else if cs[i].t > st.tx then (st, i)
    else Scan(Attempt(st, cs[i], p), cs, i + 1, p)
  }

  /** One step of the scan: a contact no later than the bound is attempted and the scan
      moves on. */
  lemma ScanStep(st: Trial, cs: seq<Contact>, i: nat, p: Params)
    requires ContactsFit(cs, |st.rtime|) && i < |cs| && cs[i].t <= st.tx
    ensures Scan(st, cs, i, p) == Scan(Attempt(st, cs[i], p), cs, i + 1, p)
  {
  }

  /** The trial start of tsir_ref.c:87-92: every node susceptible except the source, whose
      recovery time is the initial extinction bound, and an outbreak size of 1. */
  function Start(n: nat, source: nat, tx: Uint32, state: bv64): (st: Trial)
    requires source < n
    ensures |st.rtime| == n && st.ni == 1 && st.tx == tx && st.rtime[source] == tx
    ensures forall v :: 0 <= v < n && v != source ==> Susceptible(st.rtime[v])
  {
    Trial(seq(n, v => if v == source then tx else UintMax), 1, tx, state)
  }

  /** What `start_index` returns, as written: the first contact later than `now` when
      there is one, and the last contact otherwise. */
  function StartIndexOf(cs: seq<Contact>, now: Uint32): (k: nat)
    requires |cs| > 0
    ensures k < |cs|
  {
    var f := FirstAfter(Times(cs), now);
    if f < |cs| then f else |cs| - 1
  }

  /** An index with no later contact before it is the start index when its own contact is
      later than `now` or it is the last one. */
  lemma StartIndexAt(cs: seq<Contact>, now: Uint32, k: nat)
    requires k < |cs|
    requires forall j :: 0 <= j < k ==> cs[j].t <= now
    requires cs[k].t > now || k == |cs| - 1
    ensures k == StartIndexOf(cs, now)
  {
  }

  /** The start index is the least contact later than `now` when one exists; otherwise it is
      `nc - 1` and no contact is later than `now`. */
  lemma StartIndexIsFirstLater(cs: seq<Contact>, now: Uint32)
    requires |cs| > 0 && TimeOrdered(cs)
    ensures var k := StartIndexOf(cs, now);
      && (forall j :: 0 <= j < k ==> cs[j].t <= now)
      && ((exists j :: 0 <= j < |cs| && cs[j].t > now) ==> cs[k].t > now)
      && ((forall j :: 0 <= j < |cs| ==> cs[j].t <= now) ==> k == |cs| - 1)
  {
    var ts := Times(cs);
    assert Sorted(ts) by {
      forall i, j | 0 <= i <= j < |ts| ensures ts[i] <= ts[j] {
        assert cs[i].t <= cs[j].t;
      }
    }
    var f := FirstAfter(ts, now);
    if exists j :: 0 <= j < |cs| && cs[j].t > now {
      var j :| 0 <= j < |cs| && cs[j].t > now;
      FirstAfterSplits(ts, now, j);
    }
  }

  /** As written, when no contact is later than the source's infection time `t0` the scan
      still starts at the last contact, which is at or before `t0`, and that contact can
      transmit: with one contact at time 5 between nodes 0 and 1, a source 0 infected at 7
      and recovering at 9, and a draw below `ubeta`, node 1 is infected by a contact that
      happened before the source was. */
  lemma StartIndexLetsEarlierContactTransmit()
    ensures var cs := [Contact(0, 1, 5)];
      var p := Params(1, r => 0, s => (0, s));
      && StartIndexOf(cs, 7) == 0 && cs[0].t < 7
      && Scan(Start(2, 0, 9, 0), cs, StartIndexOf(cs, 7), p).0.ni == 2
  {
    var cs := [Contact(0, 1, 5)];
    var p := Params(1, r => 0, s => (0, s));
    assert Times(cs) == [5];
    assert FirstAfter(Times(cs), 7) == 1;
    var st := Start(2, 0, 9, 0);
    assert Infectious(st.rtime[0], 5) && Susceptible(st.rtime[1]);
    assert Attempt(st, cs[0], p).ni == 2;
  }

  /** The start the code evidently intends: the first contact later than `now`, or past the
      end of the list when there is none, as `contagious_contact` of tsir.c does per edge. */
  function FirstLaterIndex(cs: seq<Contact>, now: Uint32): (k: nat)
    ensures k <= |cs|
  {
    FirstAfter(Times(cs), now)
  }

  /** From the corrected start, every contact the scan processes is strictly later than the
      source's infection time; and whenever some contact is later than it, the corrected
      start is the one `start_index` returns. */
  lemma FirstLaterIndexSkipsEarlierContacts(cs: seq<Contact>, now: Uint32)
    requires |cs| > 0 && TimeOrdered(cs)
    ensures var k := FirstLaterIndex(cs, now);
      && (forall j :: k <= j < |cs| ==> cs[j].t > now)
      && (forall j :: 0 <= j < k ==> cs[j].t <= now)
      && (k < |cs| ==> k == StartIndexOf(cs, now))
      && (now < cs[|cs| - 1].t ==> k < |cs|)
  {
    var ts := Times(cs);
    assert Sorted(ts) by {
      forall i, j | 0 <= i <= j < |ts| ensures ts[i] <= ts[j] {
        assert cs[i].t <= cs[j].t;
      }
    }
    var k := FirstLaterIndex(cs, now);
    forall j | 0 <= j < |cs| ensures (j < k ==> cs[j].t <= now) && (k <= j ==> cs[j].t > now) {
      FirstAfterSplits(ts, now, j);
    }
  }

  /** Whenever some contact is later than `t0`, the corrected scan and the scan as written
      are the same scan. */
  lemma CorrectedScanAgrees(st: Trial, cs: seq<Contact>, t0: Uint32, p: Params)
    requires |cs| > 0 && TimeOrdered(cs) && ContactsFit(cs, |st.rtime|)
    requires t0 < cs[|cs| - 1].t
    ensures Scan(st, cs, FirstLaterIndex(cs, t0), p) == Scan(st, cs, StartIndexOf(cs, t0), p)
  {
    FirstLaterIndexSkipsEarlierContacts(cs, t0);
  }

  /** The scan never lowers the extinction bound. */
  lemma {:induction false} ScanKeepsTxRising(st: Trial, cs: seq<Contact>, i: nat, p: Params)
    requires ContactsFit(cs, |st.rtime|)
    ensures st.tx <= Scan(st, cs, i, p).0.tx
    decreases |cs| - i
  {
    if i < |cs| && cs[i].t <= st.tx {
      var st' := Attempt(st, cs[i], p);
      assert st.tx <= st'.tx;
      ScanKeepsTxRising(st', cs, i + 1, p);
    }
  }

  /** The scan stops at the first contact later than the extinction bound: every contact it
      processed was no later than the final bound, and the one it stopped at, if any, is
      later than it. */
  lemma {:induction false} ScanStopsAtFirstLateContact(st: Trial, cs: seq<Contact>, i: nat, p: Params)
    requires ContactsFit(cs, |st.rtime|)
    ensures var (fin, stop) := Scan(st, cs, i, p);
      && (forall j :: i <= j < stop && j < |cs| ==> cs[j].t <= fin.tx)
      && (stop < |cs| ==> cs[stop].t > fin.tx)
    decreases |cs| - i
  {
    if i < |cs| && cs[i].t <= st.tx {
      var st' := Attempt(st, cs[i], p);
      ScanStopsAtFirstLateContact(st', cs, i + 1, p);
      ScanKeepsTxRising(st', cs, i + 1, p);
    }
  }

  /** A contact changes recovery times only when exactly one endpoint is infectious and the
      other susceptible, and then only the susceptible endpoint's. It draws once from the
      generator in that case (twice when it infects) and not at all otherwise. */
  lemma AttemptNeedsInfectiousAndSusceptible(st: Trial, c: Contact, p: Params)
    requires c.left < |st.rtime| && c.right < |st.rtime| && c.t < Modulus32
    ensures var st', now := Attempt(st, c, p), c.t as Uint32;
      var me, you := st.rtime[c.left], st.rtime[c.right];
      var pair := (Infectious(me, now) && Susceptible(you)) || (Susceptible(me) && Infectious(you, now));
      && (!pair ==> st' == st)
      && (pair && st'.ni == st.ni ==> st'.state == p.draw(st.state).1 && st'.rtime == st.rtime)
      && (pair && st'.ni != st.ni ==> st'.ni == st.ni + 1 && st'.state == p.draw(p.draw(st.state).1).1)
      && (forall v :: 0 <= v < |st.rtime| && st'.rtime[v] != st.rtime[v] ==>
            Susceptible(st.rtime[v]) && (v == c.left || v == c.right))
  {
  }

  /** The number of nodes whose recovery time is set (not susceptible). */
  function InfectedCount(rt: seq<Uint32>): (k: nat)
    ensures k <= |rt|
  {
    if rt == [] then 0
    else InfectedCount(rt[..|rt| - 1]) + (if rt[|rt| - 1] != UintMax then 1 else 0)
  }

  /** Setting the recovery time of a susceptible node to a value below `UINT_MAX` adds one to
      the count. */
  lemma {:induction false} InfectedCountGrows(rt: seq<Uint32>, v: nat, x: Uint32)
    requires v < |rt| && rt[v] == UintMax && x != UintMax
    ensures InfectedCount(rt[v := x]) == InfectedCount(rt) + 1
    decreases |rt|
  {
    var last := |rt| - 1;
    if v < last {
      InfectedCountGrows(rt[..last], v, x);
      assert rt[v := x][..last] == rt[..last][v := x];
    } else {
      assert rt[v := x][..last] == rt[..last];
    }
  }

  /** No sampled recovery time reaches `UINT_MAX`: the wrap-around `now + exptime()` could
      otherwise leave an infected node reading as susceptible. */
  ghost predicate NoRecoveryWrap(cs: seq<Contact>, logTime: bv32 -> Uint32)
  {
    forall i, r :: 0 <= i < |cs| ==> cs[i].t + ExpDuration(r, logTime) < UintMax
  }

  /** When no recovery time wraps, the outbreak size counts the nodes that are not
      susceptible through the whole scan, and so never exceeds the number of nodes. */
  lemma {:induction false} ScanCountsInfected(st: Trial, cs: seq<Contact>, i: nat, p: Params)
    requires ContactsFit(cs, |st.rtime|) && NoRecoveryWrap(cs, p.logTime)
    requires st.ni == InfectedCount(st.rtime)
    ensures var fin := Scan(st, cs, i, p).0;
      fin.ni == InfectedCount(fin.rtime) && fin.ni <= |st.rtime|
    decreases |cs| - i
  {
    if i < |cs| && cs[i].t <= st.tx {
      var c := cs[i];
      var st' := Attempt(st, c, p);
      if st'.ni != st.ni {
        var now := c.t as Uint32;
        var d := ExpDuration(p.draw(p.draw(st.state).1).0, p.logTime);
        assert c.t + d < UintMax;
        var target := if Infectious(st.rtime[c.left], now) && Susceptible(st.rtime[c.right])
          then c.right else c.left;
        InfectedCountGrows(st.rtime, target, Add32(now, d));
      }
      ScanCountsInfected(st', cs, i + 1, p);
    }
  }

  /** The trial start has outbreak size 1 and exactly one node infected, when the source's
      recovery time is below `UINT_MAX`. */
  lemma StartCountsSource(n: nat, source: nat, tx: Uint32, state: bv64)
    requires source < n && tx != UintMax
    ensures Start(n, source, tx, state).ni == InfectedCount(Start(n, source, tx, state).rtime)
  {
    var rt := Start(n, source, tx, state).rtime;
    var all: seq<Uint32> := seq(n, v => UintMax);
    AllSusceptibleCountZero(all);
    assert rt == all[source := tx];
    InfectedCountGrows(all, source, tx);
  }

  lemma {:induction false} AllSusceptibleCountZero(rt: seq<Uint32>)
    requires forall v :: 0 <= v < |rt| ==> rt[v] == UintMax
    ensures InfectedCount(rt) == 0
    decreases |rt|
  {
    if rt != [] {
      AllSusceptibleCountZero(rt[..|rt| - 1]);
    }
  }

  /** The global state of tsir_ref.c: the network (`g.n`, the contact array `c`, `g.dur`),
      the transmission threshold `g.ubeta`, the recovery times `g.rtime` and `g.ni`. */
  class RefSim {
    const n: nat
    const contacts: seq<Contact>
    const dur: Uint32
    const ubeta: Uint32
    const logTime: bv32 -> Uint32
    const fuel: nat
    const rng: Generator
    const rtime: array<Uint32>
    var ni: nat

    /** The trial state the fields hold, with `tx` the current extinction bound. */
    ghost function State(tx: Uint32): (st: Trial)
      reads this, rtime, rng
      ensures |st.rtime| == rtime.Length
    {
      Trial(rtime[..], ni, tx, rng.state)
    }

    /** The parameters the scan reads: `g.ubeta`, `exptime` and `pcg_32`. */
    function Param(): Params
    {
      Params(ubeta, logTime, PcgDraw)
    }

    ghost predicate Valid()
      reads {}
    {
      && 0 < n < Modulus32 && 0 < dur && rtime.Length == n
      && 0 < |contacts| <= 0x8000_0000
      && ContactsFit(contacts, n) && TimeOrdered(contacts)
    }

    constructor (n: nat, contacts: seq<Contact>, dur: Uint32, ubeta: Uint32,
                 logTime: bv32 -> Uint32, fuel: nat, rng: Generator)
      requires 0 < n < Modulus32 && 0 < dur && 0 < |contacts| <= 0x8000_0000
      requires ContactsFit(contacts, n) && TimeOrdered(contacts)
      ensures Valid() && fresh(rtime)
      ensures this.n == n && this.contacts == contacts && this.dur == dur && this.ubeta == ubeta
      ensures this.logTime == logTime && this.fuel == fuel && this.rng == rng
    {
      this.n, this.contacts, this.dur, this.ubeta := n, contacts, dur, ubeta;
      this.logTime, this.fuel, this.rng := logTime, fuel, rng;
      rtime := new Uint32[n];
      ni := 0;
    }

    /** `start_index`: bisection over the contact times for the first one later than `now`. */
    method StartIndex(now: Uint32) returns (lo: Uint32)
      requires Valid()
      ensures lo == StartIndexOf(contacts, now)
    {
      var hi: Uint32;
      lo, hi := 0, |contacts| - 1;
      while lo < hi
        invariant 0 <= lo <= hi < |contacts|
        invariant forall j :: 0 <= j < lo ==> contacts[j].t <= now
        invariant hi < |contacts| - 1 ==> contacts[hi].t > now
        decreases hi - lo
      {
        var mid: Uint32 := Add32(lo, hi) / 2;
        if contacts[mid].t > now {
          hi := mid;
        } else {
          forall j | 0 <= j <= mid ensures contacts[j].t <= now {
            assert contacts[j].t <= contacts[mid].t;
          }
          lo := mid + 1;
        }
      }
      StartIndexAt(contacts, now, lo as nat);
    }

    /** The corrected start of the scan: `start_index`, moved past the end of the list when
        the contact it returns is not later than `now`. */
    method FirstLater(now: Uint32) returns (k: Uint32)
      requires Valid()
      ensures k as nat == FirstLaterIndex(contacts, now)
    {
      k := StartIndex(now);
      FirstLaterIndexSkipsEarlierContacts(contacts, now);
      if contacts[k].t <= now {
        k := |contacts|;
      }
    }

    /** `pcg_32() < g.ubeta` and, on success, the infection of `target` (tsir_ref.c:101-104
        and 107-110). */
    method TryTransmit(target: nat, now: Uint32, tx: Uint32) returns (tx': Uint32)
      requires Valid() && target < n
      modifies rtime, `ni, rng`state
      ensures State(tx') == Transmit(old(State(tx)), target, now, Param())
    {
      tx' := tx;
      ghost var st := State(tx);
      var r := rng.Next32();
      assert Param().draw(st.state) == (r, rng.state);
      if (r as int) < ubeta {
        ni := ni + 1;
        ghost var s1 := rng.state;
        var d := Exptime(rng, logTime);
        assert Param().draw(s1) == (Output(s1), rng.state);
        var rec := Add32(now, d);
        rtime[target] := rec;
        if tx' < rec {
          tx' := rec;
        }
        assert rtime[..] == st.rtime[target := rec];
      } else {
        assert rtime[..] == st.rtime;
      }
    }

    /** The body of the scan for contact `i` (tsir_ref.c:100-112). */
    method Visit(i: Uint32, tx: Uint32) returns (tx': Uint32)
      requires Valid() && i < |contacts|
      modifies rtime, `ni, rng`state
      ensures State(tx') == Attempt(old(State(tx)), contacts[i], Param())
    {
      tx' := tx;
      var me, you, now := contacts[i].left, contacts[i].right, contacts[i].t as Uint32;
      if Infectious(rtime[me], now) && Susceptible(rtime[you]) {
        tx' := TryTransmit(you, now, tx);
      } else if Susceptible(rtime[me]) && Infectious(rtime[you], now) {
        tx' := TryTransmit(me, now, tx);
      }
    }

    /** The reset loop of tsir_ref.c:87: every node susceptible. */
    method Reset()
      requires Valid()
      modifies rtime
      ensures forall v :: 0 <= v < n ==> Susceptible(rtime[v])
    {
      var k := 0;
      while k < n
        invariant 0 <= k <= n
        invariant forall v :: 0 <= v < k ==> rtime[v] == UintMax
      {
        rtime[k] := UintMax;
        k := k + 1;
      }
    }

    /** The scan loop of tsir_ref.c:95-113 from contact `i` with extinction bound `tx`. */
    method Spread(i: Uint32, tx: Uint32)
      requires Valid() && i < |contacts|
      modifies rtime, `ni, rng`state
      ensures var fin := Scan(Trial(old(rtime[..]), old(ni), tx, old(rng.state)), contacts, i as nat, Param()).0;
        rtime[..] == fin.rtime && ni == fin.ni && rng.state == fin.state
    {
      var i, tx := i, tx;
      ghost var p := Param();
      ghost var goal := Scan(State(tx), contacts, i as nat, p);
      while i < |contacts|
        invariant i <= |contacts|
        invariant Scan(State(tx), contacts, i as nat, p) == goal
        decreases |contacts| - i
      {
        if contacts[i].t > tx {
          break;
        }
        ScanStep(State(tx), contacts, i as nat, p);
        tx := Visit(i, tx);
        i := i + 1;
      }
    }

    /** The start of `sir` (tsir_ref.c:86-92): reset every node to susceptible, draw the
        source's infection time `t0` and then the source, and infect it until
        `tx = t0 + exptime()`. The two draws inside `g.rtime[pcg_32_bounded(g.n)] = tx = t0 +
        exptime()` are unsequenced in C; the index is drawn first here. */
    method Seed() returns (t0: Uint32, tx: Uint32)
      requires Valid()
      modifies rtime, `ni, rng`state
      ensures var (t, s1) := BoundedDraw(old(rng.state), dur, fuel);
        var (source, s2) := BoundedDraw(s1, n, fuel);
        && t0 == t && tx == Add32(t, ExpDuration(Output(s2), logTime))
        && State(tx) == Start(n, source, tx, Advance(s2))
    {
      Reset();
      t0 := rng.Bounded(dur, fuel);
      var source := rng.Bounded(n, fuel);
      var d := Exptime(rng, logTime);
      tx := Add32(t0, d);
      rtime[source] := tx;
      ni := 1;
      assert rtime[..] == Start(n, source, tx, rng.state).rtime;
    }

    /** `sir` of tsir_ref.c as written: seed the trial and scan the contacts from
        `start_index(t0)`. */
    method Sir()
      requires Valid()
      modifies rtime, `ni, rng`state
      ensures var (t0, s1) := BoundedDraw(old(rng.state), dur, fuel);
        var (source, s2) := BoundedDraw(s1, n, fuel);
        var tx := Add32(t0, ExpDuration(Output(s2), logTime));
        var fin := Scan(Start(n, source, tx, Advance(s2)), contacts, StartIndexOf(contacts, t0), Param()).0;
        rtime[..] == fin.rtime && ni == fin.ni && rng.state == fin.state
    {
      var t0, tx := Seed();
      var i := StartIndex(t0);
      Spread(i, tx);
    }

    /** `sir` with the corrected start: the scan begins at the first contact later than
        `t0`, and is empty when there is none. */
    method CorrectedSir()
      requires Valid()
      modifies rtime, `ni, rng`state
      ensures var (t0, s1) := BoundedDraw(old(rng.state), dur, fuel);
        var (source, s2) := BoundedDraw(s1, n, fuel);
        var tx := Add32(t0, ExpDuration(Output(s2), logTime));
        var fin := Scan(Start(n, source, tx, Advance(s2)), contacts, FirstLaterIndex(contacts, t0), Param()).0;
        rtime[..] == fin.rtime && ni == fin.ni && rng.state == fin.state
    {
      var t0, tx := Seed();
      var i := FirstLater(t0);
      if i < |contacts| {
        Spread(i, tx);
      }
    }
  }
}
