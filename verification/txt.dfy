/** The two network writers of tsir_compare.py:25-76. `txt_ref` lists the contacts one per
    line for the reference simulator; `txt` groups them by undirected edge and writes, for
    every node, its neighbours with their contact times, edges ordered by non-increasing last
    contact, for the event-driven simulator. */
module NetworkFiles {
  import opened TemporalNetwork
  import opened NumberText

  /** The result of a writer: the text, or the `IndexError` Python raises. */
  datatype Outcome<T> = Done(value: T) | IndexError

  /** An entry of `tdic`: the normalised endpoints and the times filed under them. */
  datatype Edge = Edge(lo: nat, hi: nat, times: seq<nat>)

  /** A neighbour record of a node: the other endpoint and the contact times. */
  type Neighbour = (nat, seq<nat>)

  // ---------------------------------------------------------------- txt_ref

  /** One contact as `txt_ref` writes it: `u v t`. */
  function Row(c: Contact): Line
  {
    [c.left, c.right, c.t]
  }

  function Rows(a: seq<Contact>): (lines: seq<Line>)
    ensures |lines| == |a|
    ensures forall i :: 0 <= i < |a| ==> lines[i] == Row(a[i])
  {
    if a == [] then [] else Rows(a[..|a| - 1]) + [Row(a[|a| - 1])]
  }

  /** The lines `txt_ref` writes: the header `n nc tmax`, then `u v t` per contact. */
  function RefLines(a: seq<Contact>, n: nat): (lines: seq<Line>)
    requires |a| > 0
  {
    [[n, |a|, a[|a| - 1].t]] + Rows(a)
  }

  lemma RowsStep(header: seq<Line>, a: seq<Contact>, i: nat)
    requires i < |a|
    ensures Text(header + Rows(a[..i + 1])) == Text(header + Rows(a[..i])) + Text([Row(a[i])])
  {
    assert a[..i + 1][..i] == a[..i];
    assert header + Rows(a[..i + 1]) == (header + Rows(a[..i])) + [Row(a[i])];
    TextAppend(header + Rows(a[..i]), [Row(a[i])]);
  }

  /** `txt_ref`: `a[-1,2]` raises on an empty contact array; otherwise the header and one line
      per contact, in input order. */
  method TxtRef(a: seq<Contact>, n: nat) returns (r: Outcome<string>)
    ensures r.IndexError? <==> |a| == 0
    ensures r.Done? ==> |a| > 0 && r.value == Text(RefLines(a, n))
  {
    if |a| == 0 {
      return IndexError;
    }
    var nwk := Decimal(n) + " " + Decimal(|a|) + " " + Decimal(a[|a| - 1].t) + "\n";
    ghost var header: seq<Line> := [[n, |a|, a[|a| - 1].t]];
    ThreeNumbers(n, |a|, a[|a| - 1].t);
    assert a[..0] == [];
    var i := 0;
    while i < |a|
      invariant 0 <= i <= |a|
      invariant nwk == Text(header + Rows(a[..i]))
    {
      nwk := nwk + (Decimal(a[i].left) + " " + Decimal(a[i].right) + " " + Decimal(a[i].t) + "\n");
      ThreeNumbers(a[i].left, a[i].right, a[i].t);
      RowsStep(header, a, i);
      i := i + 1;
    }
    assert a[..|a|] == a;
    r := Done(nwk);
  }

  /** Reads `count` lines of three numbers as contacts. */
  function ReadContacts(lines: seq<Line>, count: nat): Option<seq<Contact>>
  {
    if count == 0 then (if lines == [] then Some([]) else None)
    else if lines == [] || |lines[0]| != 3 then None
    else
      match ReadContacts(lines[1..], count - 1)
      case None => None
      case Some(cs) => Some([Contact(lines[0][0], lines[0][1], lines[0][2])] + cs)
  }

  /** Reads the lines of a reference file: the header `n nc dur` and `nc` contacts. */
  function ReadRef(lines: seq<Line>): Option<(nat, nat, seq<Contact>)>
  {
    if lines == [] || |lines[0]| != 3 then None
    else
      match ReadContacts(lines[1..], lines[0][1])
      case None => None
      case Some(cs) => Some((lines[0][0], lines[0][2], cs))
  }

  /** The reference file reads back as the node count, the last contact time (which the
      reference simulator takes as its duration `dur`) and the same contacts in order. */
  lemma RefLinesReadBack(a: seq<Contact>, n: nat)
    requires |a| > 0
    ensures ReadRef(RefLines(a, n)) == Some((n, a[|a| - 1].t, a))
    ensures ReadText(Text(RefLines(a, n))) == Some(RefLines(a, n))
  {
    var lines := RefLines(a, n);
    ReadContactsOf(a, lines[1..]);
    ReadTextOf(lines);
  }

  lemma {:induction false} ReadContactsOf(a: seq<Contact>, lines: seq<Line>)
    requires |lines| == |a|
    requires forall i :: 0 <= i < |a| ==> lines[i] == Row(a[i])
    ensures ReadContacts(lines, |a|) == Some(a)
  {
    if a != [] {
      ReadContactsOf(a[1..], lines[1..]);
      assert [a[0]] + a[1..] == a;
    }
  }

  // ---------------------------------------------------------------- txt: grouping

  /** The key `e` a contact is filed under: its endpoints, smaller first. */
  function Key(c: Contact): (k: (nat, nat))
    ensures k.0 <= k.1
    ensures (k.0 == c.left && k.1 == c.right) || (k.0 == c.right && k.1 == c.left)
  {
    if c.left < c.right then (c.left, c.right) else (c.right, c.left)
  }

  function KeyOf(e: Edge): (nat, nat)
  {
    (e.lo, e.hi)
  }

  /** Where key `k` sits in the table, or `|d|` when it is absent (`e in tdic`). */
  function Find(d: seq<Edge>, k: (nat, nat)): (i: nat)
    ensures i <= |d|
    ensures i < |d| ==> KeyOf(d[i]) == k
    ensures forall j :: 0 <= j < i ==> KeyOf(d[j]) != k
  {
    if d == [] then 0
    else if KeyOf(d[0]) == k then 0
    else 1 + Find(d[1..], k)
  }

  /** One step of the grouping loop (tsir_compare.py:47-52): append the time to the entry
      of the key, or add a new entry at the end (a `dict` keeps insertion order). */
  function File(d: seq<Edge>, k: (nat, nat), t: nat): (d': seq<Edge>)
  {
    var i := Find(d, k);
    if i < |d| then d[i := d[i].(times := d[i].times + [t])]
    else d + [Edge(k.0, k.1, [t])]
  }

  /** The table `tdic` after filing every contact of `a` in order. */
  function Group(a: seq<Contact>): seq<Edge>
  {
    if a == [] then []
    else
      var c := a[|a| - 1];
      File(Group(a[..|a| - 1]), Key(c), c.t)
  }

  /** The times of the contacts of `a` filed under key `k`, in input order. */
  function TimesOf(a: seq<Contact>, k: (nat, nat)): seq<nat>
  {
    if a == [] then []
    else
      var c := a[|a| - 1];
      TimesOf(a[..|a| - 1], k) + (if Key(c) == k then [c.t] else [])
  }

  ghost predicate KeysDistinct(d: seq<Edge>)
  {
    forall i, j :: 0 <= i < j < |d| ==> KeyOf(d[i]) != KeyOf(d[j])
  }

  /** What grouping builds: one entry per key with distinct, normalised keys; each entry
      holds exactly the times of the contacts with that key, in input order; and a key with
      any contact has an entry. */
  ghost predicate GroupsContacts(d: seq<Edge>, a: seq<Contact>)
  {
    && KeysDistinct(d)
    && (forall i :: 0 <= i < |d| ==>
          d[i].lo <= d[i].hi && |d[i].times| > 0 && d[i].times == TimesOf(a, KeyOf(d[i])))
    && (forall k: (nat, nat) :: TimesOf(a, k) != [] ==> Find(d, k) < |d|)
  }

  /** `Group` builds what its contract describes. */
  lemma {:induction false} GroupGroupsContacts(a: seq<Contact>)
    ensures GroupsContacts(Group(a), a)
  {
    if a != [] {
      var p := a[..|a| - 1];
      var c := a[|a| - 1];
      GroupGroupsContacts(p);
      TimesOfLast(a);
      if Find(Group(p), Key(c)) < |Group(p)| {
        FileExistingKey(Group(p), p, a, c);
      } else {
        FileNewKey(Group(p), p, a, c);
      }
    }
  }

  lemma TimesOfLast(a: seq<Contact>)
    requires a != []
    ensures forall k: (nat, nat) ::
              TimesOf(a, k) == TimesOf(a[..|a| - 1], k) + (if Key(a[|a| - 1]) == k then [a[|a| - 1].t] else [])
  {
  }

  lemma FileExistingKey(d: seq<Edge>, p: seq<Contact>, a: seq<Contact>, c: Contact)
    requires GroupsContacts(d, p) && Find(d, Key(c)) < |d|
    requires forall k: (nat, nat) :: TimesOf(a, k) == TimesOf(p, k) + (if Key(c) == k then [c.t] else [])
    ensures GroupsContacts(File(d, Key(c), c.t), a)
  {
    var k := Key(c);
    var i := Find(d, k);
    var d' := File(d, k, c.t);
    forall j | 0 <= j < |d'|
      ensures d'[j].lo <= d'[j].hi && |d'[j].times| > 0 && d'[j].times == TimesOf(a, KeyOf(d'[j]))
    {
      if j != i {
        assert KeyOf(d[j]) != k;
      }
    }
    forall k': (nat, nat) | TimesOf(a, k') != [] ensures Find(d', k') < |d'| {
      if k' != k {
        assert TimesOf(p, k') != [];
      }
      FindAfterUpdate(d, i, d'[i], k');
    }
  }

  lemma FileNewKey(d: seq<Edge>, p: seq<Contact>, a: seq<Contact>, c: Contact)
    requires GroupsContacts(d, p) && Find(d, Key(c)) == |d|
    requires forall k: (nat, nat) :: TimesOf(a, k) == TimesOf(p, k) + (if Key(c) == k then [c.t] else [])
    ensures GroupsContacts(File(d, Key(c), c.t), a)
  {
    var k := Key(c);
    var d' := File(d, k, c.t);
    assert d' == d + [Edge(k.0, k.1, [c.t])];
    assert TimesOf(p, k) == [];
    assert KeysDistinct(d') by {
      forall i, j | 0 <= i < j < |d'| ensures KeyOf(d'[i]) != KeyOf(d'[j]) {
        if j == |d| {
          assert KeyOf(d[i]) != k;
        }
      }
    }
    forall j | 0 <= j < |d'|
      ensures d'[j].lo <= d'[j].hi && |d'[j].times| > 0 && d'[j].times == TimesOf(a, KeyOf(d'[j]))
    {
      if j < |d| {
        assert KeyOf(d[j]) != k && d'[j] == d[j];
      }
    }
    forall k': (nat, nat) | TimesOf(a, k') != [] ensures Find(d', k') < |d'| {
      if k' != k {
        assert Find(d, k') < |d|;
        FindInPrefix(d, d', k');
      } else {
        FindInPrefix(d, d', k);
      }
    }
  }

  lemma FindAfterUpdate(d: seq<Edge>, i: nat, e: Edge, k: (nat, nat))
    requires i < |d| && KeyOf(e) == KeyOf(d[i]) && Find(d, k) < |d|
    ensures Find(d[i := e], k) < |d|
  {
    var j := Find(d, k);
    var d' := d[i := e];
    assert KeyOf(d'[j]) == k;
  }

  lemma FindInPrefix(d: seq<Edge>, d': seq<Edge>, k: (nat, nat))
    requires |d| < |d'| && d'[..|d|] == d
    requires Find(d, k) < |d| || KeyOf(d'[|d|]) == k
    ensures Find(d', k) < |d'|
  {
    var j := if Find(d, k) < |d| then Find(d, k) else |d|;
    assert KeyOf(d'[j]) == k;
  }

  /** Every time filed under a key belongs to a contact with that key. */
  lemma {:induction false} TimesOfFromContacts(a: seq<Contact>, k: (nat, nat), m: nat)
    requires m < |TimesOf(a, k)|
    ensures exists j :: 0 <= j < |a| && Key(a[j]) == k && a[j].t == TimesOf(a, k)[m]
  {
    var p := a[..|a| - 1];
    var c := a[|a| - 1];
    if m < |TimesOf(p, k)| {
      TimesOfFromContacts(p, k, m);
      var j :| 0 <= j < |p| && Key(p[j]) == k && p[j].t == TimesOf(p, k)[m];
      assert a[j] == p[j];
    } else {
      assert Key(a[|a| - 1]) == k;
    }
  }

  /** Every contact is filed: its time is among those of its key. */
  lemma {:induction false} ContactsAreFiled(a: seq<Contact>, j: nat)
    requires j < |a|
    ensures a[j].t in TimesOf(a, Key(a[j]))
  {
    var p := a[..|a| - 1];
    if j < |a| - 1 {
      ContactsAreFiled(p, j);
      assert p[j] == a[j];
    }
  }

  /** When the contacts are in time order, so is every edge's time list. */
  lemma {:induction false} TimesOfSorted(a: seq<Contact>, k: (nat, nat))
    requires TimeOrdered(a)
    ensures Sorted(TimesOf(a, k))
  {
    if a != [] {
      var p := a[..|a| - 1];
      var c := a[|a| - 1];
      TimesOfSorted(p, k);
      var ts := TimesOf(a, k);
      forall m | 0 <= m < |TimesOf(p, k)| ensures TimesOf(p, k)[m] <= c.t {
        TimesOfFromContacts(p, k, m);
      }
    }
  }

  // ---------------------------------------------------------------- txt: ordering

  /** `x[1][-1]`: the last time of an edge (lists built by `Group` are never empty). */
  function LastTime(e: Edge): nat
  {
    if e.times == [] then 0 else e.times[|e.times| - 1]
  }

  /** The sort key `(-last, len)` of tsir_compare.py:59, compared as Python compares tuples:
      `e` may precede `f` when it has the later last contact, or the same one and no more
      contacts. */
  predicate KeyLe(e: Edge, f: Edge)
  {
    LastTime(e) > LastTime(f) || (LastTime(e) == LastTime(f) && |e.times| <= |f.times|)
  }

  predicate KeyLess(e: Edge, f: Edge)
  {
    LastTime(e) > LastTime(f) || (LastTime(e) == LastTime(f) && |e.times| < |f.times|)
  }

  ghost predicate SortedByKey(s: seq<Edge>)
  {
    forall i, j :: 0 <= i < j < |s| ==> KeyLe(s[i], s[j])
  }

  /** Insert `e` after every element whose key is not larger. */
  function InsertByKey(e: Edge, s: seq<Edge>): seq<Edge>
  {
    if s == [] then [e]
    else if KeyLess(e, s[0]) then [e] + s
    else [s[0]] + InsertByKey(e, s[1..])
  }

  /** `sorted(tdic.items(), key=...)`: a stable sort by the key, each later entry placed
      after the earlier ones with an equal key. */
  function SortByKey(s: seq<Edge>): seq<Edge>
  {
    if s == [] then [] else InsertByKey(s[|s| - 1], SortByKey(s[..|s| - 1]))
  }

  lemma {:induction false} InsertByKeyPermutes(e: Edge, s: seq<Edge>)
    ensures multiset(InsertByKey(e, s)) == multiset(s) + multiset{e}
  {
    if s != [] && !KeyLess(e, s[0]) {
      InsertByKeyPermutes(e, s[1..]);
      assert s == [s[0]] + s[1..];
    }
  }

  lemma InsertByKeyHead(e: Edge, s: seq<Edge>)
    ensures InsertByKey(e, s) != []
    ensures InsertByKey(e, s)[0] == e || (s != [] && InsertByKey(e, s)[0] == s[0])
  {
  }

  lemma {:induction false} InsertByKeySorted(e: Edge, s: seq<Edge>)
    requires SortedByKey(s)
    ensures SortedByKey(InsertByKey(e, s))
  {
    if s != [] && !KeyLess(e, s[0]) {
      var r := InsertByKey(e, s[1..]);
      InsertByKeySorted(e, s[1..]);
      InsertByKeyHead(e, s[1..]);
      assert KeyLe(s[0], r[0]) by {
        if r[0] != e {
          assert r[0] == s[1];
        }
      }
      var out := [s[0]] + r;
      forall i, j | 0 <= i < j < |out| ensures KeyLe(out[i], out[j]) {
        if i == 0 && j > 1 {
          assert KeyLe(r[0], r[j - 1]);
        }
      }
    }
  }

  /** The sorted order lists every edge once and is ordered by the key. */
  lemma {:induction false} SortByKeySortsAndPermutes(s: seq<Edge>)
    ensures SortedByKey(SortByKey(s))
    ensures multiset(SortByKey(s)) == multiset(s)
  {
    if s != [] {
      var p := s[..|s| - 1];
      SortByKeySortsAndPermutes(p);
      InsertByKeySorted(s[|s| - 1], SortByKey(p));
      InsertByKeyPermutes(s[|s| - 1], SortByKey(p));
      assert s == p + [s[|s| - 1]];
    }
  }

  // ---------------------------------------------------------------- txt: node blocks

  /** The records an edge adds to node `v`'s block, in the order of tsir_compare.py:60-70:
      the one written under `e[0]` first, then the one under `e[1]`. */
  function Touch(e: Edge, v: nat): seq<Neighbour>
  {
    (if e.lo == v then [(e.hi, e.times)] else []) + (if e.hi == v then [(e.lo, e.times)] else [])
  }

  /** Node `v`'s neighbour records after writing the edges `es` in order. */
  function Neighbours(es: seq<Edge>, v: nat): seq<Neighbour>
  {
    if es == [] then [] else Neighbours(es[..|es| - 1], v) + Touch(es[|es| - 1], v)
  }

  /** The time lines of a record: one time per line. */
  function TimeLines(ts: seq<nat>): (lines: seq<Line>)
    ensures |lines| == |ts|
    ensures forall i :: 0 <= i < |ts| ==> lines[i] == [ts[i]]
  {
    if ts == [] then [] else [[ts[0]]] + TimeLines(ts[1..])
  }

  /** A neighbour record as written: `w len`, then one time per line. */
  function RecordLines(r: Neighbour): seq<Line>
  {
    [[r.0, |r.1|]] + TimeLines(r.1)
  }

  /** The records of a node block, one after the other. */
  function BlockLines(rs: seq<Neighbour>): seq<Line>
  {
    if rs == [] then [] else RecordLines(rs[0]) + BlockLines(rs[1..])
  }

  /** Node `v`'s part of the file: its degree, then its neighbour records. */
  function NodeLines(es: seq<Edge>, v: nat): seq<Line>
  {
    [[|Neighbours(es, v)|]] + BlockLines(Neighbours(es, v))
  }

  /** The blocks of nodes `v` to `n - 1`, in node order. */
  function NodesFrom(es: seq<Edge>, v: nat, n: nat): seq<Line>
    decreases n - v
  {
    if v >= n then [] else NodeLines(es, v) + NodesFrom(es, v + 1, n)
  }

  /** The lines `txt` writes for the edges `es` in their written order: the header
      `n tmax` and every node's block. */
  function TxtLines(es: seq<Edge>, n: nat, tmax: nat): seq<Line>
  {
    [[n, tmax]] + NodesFrom(es, 0, n)
  }

  /** The full input-to-lines view of `txt`. */
  function TxtOf(a: seq<Contact>, n: nat): seq<Line>
    requires |a| > 0
  {
    TxtLines(SortByKey(Group(a)), n, a[|a| - 1].t)
  }

  lemma {:induction false} BlockLinesAppend(rs: seq<Neighbour>, more: seq<Neighbour>)
    ensures BlockLines(rs + more) == BlockLines(rs) + BlockLines(more)
  {
    if rs == [] {
      assert rs + more == more;
    } else {
      assert (rs + more)[1..] == rs[1..] + more;
      BlockLinesAppend(rs[1..], more);
    }
  }

  lemma {:induction false} NodesFromAppend(es: seq<Edge>, v: nat, m: nat)
    requires v <= m
    ensures NodesFrom(es, v, m + 1) == NodesFrom(es, v, m) + NodeLines(es, m)
    decreases m - v
  {
    if v < m {
      NodesFromAppend(es, v + 1, m);
    }
  }

  /** Each edge is written under both endpoints with the same time list: `w` is listed as a
      neighbour of `v` with times `t` exactly when `v` is listed as one of `w` with `t`. */
  lemma {:induction false} NeighboursSymmetric(es: seq<Edge>, v: nat, w: nat, t: seq<nat>)
    ensures (w, t) in Neighbours(es, v) <==> (v, t) in Neighbours(es, w)
  {
    if es != [] {
      NeighboursSymmetric(es[..|es| - 1], v, w, t);
    }
  }

  /** Edge `e` joins `v` and `w`. */
  predicate Touches(e: Edge, v: nat, w: nat)
  {
    (e.lo == v && e.hi == w) || (e.lo == w && e.hi == v)
  }

  /** Every neighbour record of a node comes from one of the written edges at that node. */
  lemma {:induction false} NeighbourFromEdge(es: seq<Edge>, v: nat, m: nat)
    requires m < |Neighbours(es, v)|
    ensures exists j :: 0 <= j < |es| && Neighbours(es, v)[m].1 == es[j].times &&
                        Touches(es[j], v, Neighbours(es, v)[m].0)
  {
    var p := es[..|es| - 1];
    if m < |Neighbours(p, v)| {
      NeighbourFromEdge(p, v, m);
      var j :| 0 <= j < |p| && Neighbours(p, v)[m].1 == p[j].times &&
               Touches(p[j], v, Neighbours(p, v)[m].0);
      assert es[j] == p[j];
    }
  }

  /** The property the event-driven simulator relies on (its early `break`): when the edges
      are written in key order, every node's neighbour lists come in non-increasing order
      of last contact. */
  lemma {:induction false} NeighboursByLastContact(es: seq<Edge>, v: nat)
    requires SortedByKey(es)
    requires forall j :: 0 <= j < |es| ==> |es[j].times| > 0
    ensures var ns := Neighbours(es, v);
      ByLastContact(seq(|ns|, i requires 0 <= i < |ns| => ns[i].1))
  {
    RecordsOrdered(es, v);
  }

  ghost predicate RecordsByLastContact(ns: seq<Neighbour>)
  {
    forall i, j :: 0 <= i < j < |ns| && |ns[i].1| > 0 && |ns[j].1| > 0 ==> Last(ns[j].1) <= Last(ns[i].1)
  }

  lemma {:induction false} RecordsOrdered(es: seq<Edge>, v: nat)
    requires SortedByKey(es)
    requires forall j :: 0 <= j < |es| ==> |es[j].times| > 0
    ensures RecordsByLastContact(Neighbours(es, v))
  {
    if es != [] {
      var p := es[..|es| - 1];
      var e := es[|es| - 1];
      RecordsOrdered(p, v);
      var ns := Neighbours(es, v);
      var np := Neighbours(p, v);
      forall i, j | 0 <= i < j < |ns| && |ns[i].1| > 0 && |ns[j].1| > 0
        ensures Last(ns[j].1) <= Last(ns[i].1)
      {
        if j >= |np| && i < |np| {
          EarlierRecordNotLater(es, v, i);
        }
      }
    }
  }

  /** A record written before the last edge's has a last contact no earlier than it. */
  lemma EarlierRecordNotLater(es: seq<Edge>, v: nat, i: nat)
    requires SortedByKey(es) && es != []
    requires i < |Neighbours(es[..|es| - 1], v)|
    ensures Neighbours(es[..|es| - 1], v)[i].1 != [] ==>
      LastTime(es[|es| - 1]) <= Last(Neighbours(es[..|es| - 1], v)[i].1)
  {
    var p := es[..|es| - 1];
    NeighbourFromEdge(p, v, i);
    var k :| 0 <= k < |p| && Neighbours(p, v)[i].1 == p[k].times && Touches(p[k], v, Neighbours(p, v)[i].0);
    assert KeyLe(es[k], es[|es| - 1]);
  }

  // ---------------------------------------------------------------- txt: the writer

  /** The grouping loop of tsir_compare.py:40-52. */
  method Tabulate(a: seq<Contact>) returns (tdic: seq<Edge>)
    ensures tdic == Group(a)
    ensures GroupsContacts(tdic, a)
  {
    tdic := [];
    var i := 0;
    while i < |a|
      invariant 0 <= i <= |a|
      invariant tdic == Group(a[..i])
    {
      var u, v, tme := a[i].left, a[i].right, a[i].t;
      var e := if u < v then (u, v) else (v, u);
      assert a[..i + 1][..i] == a[..i];
      tdic := File(tdic, e, tme);
      i := i + 1;
    }
    assert a[..|a|] == a;
    GroupGroupsContacts(a);
  }

  /** One endpoint's half of tsir_compare.py:60-64 (and 66-70): count the edge in node `v`'s
      degree and append the record of neighbour `w` with times `t` to its block. */
  method WriteRecord(ntxt: array<string>, deg: array<nat>, v: nat, w: nat, t: seq<nat>)
    requires v < ntxt.Length == deg.Length
    modifies ntxt, deg
    ensures forall u :: 0 <= u < ntxt.Length ==>
      && deg[u] == old(deg[u]) + (if u == v then 1 else 0)
      && ntxt[u] == old(ntxt[u]) + (if u == v then Text(RecordLines((w, t))) else "")
  {
    deg[v] := deg[v] + 1;
    ntxt[v] := ntxt[v] + (Decimal(w) + " " + Decimal(|t|) + "\n");
    TwoNumbers(w, |t|);
    ghost var head := old(ntxt[v]) + Text([[w, |t|]]);
    var j := 0;
    while j < |t|
      invariant 0 <= j <= |t|
      invariant deg[v] == old(deg[v]) + 1
      invariant ntxt[v] == head + Text(TimeLines(t[..j]))
      invariant forall u :: 0 <= u < ntxt.Length && u != v ==> ntxt[u] == old(ntxt[u]) && deg[u] == old(deg[u])
    {
      TimeLinesStep(t, j);
      Associative(head, Text(TimeLines(t[..j])), Decimal(t[j]) + "\n");
      ntxt[v] := ntxt[v] + (Decimal(t[j]) + "\n");
      j := j + 1;
    }
    assert t[..|t|] == t;
    TextAppend([[w, |t|]], TimeLines(t));
    Associative(old(ntxt[v]), Text([[w, |t|]]), Text(TimeLines(t)));
    assert ntxt[v] == old(ntxt[v]) + Text(RecordLines((w, t)));
  }

  lemma TimeLinesStep(t: seq<nat>, j: nat)
    requires j < |t|
    ensures Text(TimeLines(t[..j + 1])) == Text(TimeLines(t[..j])) + (Decimal(t[j]) + "\n")
  {
    OneNumber(t[j]);
    assert TimeLines(t[..j + 1]) == TimeLines(t[..j]) + [[t[j]]];
    TextAppend(TimeLines(t[..j]), [[t[j]]]);
  }

  /** Every node's block after the edges `es`, and the degree that heads it. */
  ghost predicate Written(ntxt: array<string>, deg: array<nat>, es: seq<Edge>)
    reads ntxt, deg
    requires ntxt.Length == deg.Length
  {
    forall v :: 0 <= v < ntxt.Length ==>
      deg[v] == |Neighbours(es, v)| && ntxt[v] == Text(BlockLines(Neighbours(es, v)))
  }

  lemma WrittenStep(es: seq<Edge>, k: nat, v: nat, before: string)
    requires k < |es| && before == Text(BlockLines(Neighbours(es[..k], v)))
    ensures before + Text(BlockLines(Touch(es[k], v))) == Text(BlockLines(Neighbours(es[..k + 1], v)))
    ensures |Neighbours(es[..k + 1], v)| == |Neighbours(es[..k], v)| + |Touch(es[k], v)|
  {
    assert es[..k + 1][..k] == es[..k];
    BlockLinesAppend(Neighbours(es[..k], v), Touch(es[k], v));
    TextAppend(BlockLines(Neighbours(es[..k], v)), BlockLines(Touch(es[k], v)));
  }

  /** The block of records an edge adds to a node, as `WriteRecord` appends them. */
  lemma TouchLines(e: Edge, v: nat)
    ensures Text(BlockLines(Touch(e, v)))
      == (if e.lo == v then Text(RecordLines((e.hi, e.times))) else "")
         + (if e.hi == v then Text(RecordLines((e.lo, e.times))) else "")
  {
    var r1: Neighbour := (e.hi, e.times);
    var r2: Neighbour := (e.lo, e.times);
    var one1: seq<Neighbour> := [r1];
    var one2: seq<Neighbour> := [r2];
    assert BlockLines(one1) == RecordLines(r1) by { assert |one1[1..]| == 0; }
    assert BlockLines(one2) == RecordLines(r2) by { assert |one2[1..]| == 0; }
    if e.lo == v && e.hi == v {
      assert Touch(e, v) == [r1, r2];
      assert [r1, r2][1..] == [r2];
      TextAppend(RecordLines(r1), RecordLines(r2));
    }
  }

  /** Writing one edge: both endpoints' records, failing at the first endpoint outside the
      node range (`deg[v]` raises `IndexError`). */
  method WriteEdge(ntxt: array<string>, deg: array<nat>, es: seq<Edge>, k: nat) returns (ok: bool)
    requires ntxt.Length == deg.Length && k < |es|
    requires Written(ntxt, deg, es[..k])
    modifies ntxt, deg
    ensures ok <==> es[k].lo < ntxt.Length && es[k].hi < ntxt.Length
    ensures ok ==> Written(ntxt, deg, es[..k + 1])
  {
    var e := es[k];
    var n := ntxt.Length;
    if e.lo >= n {
      return false;
    }
    WriteRecord(ntxt, deg, e.lo, e.hi, e.times);
    if e.hi >= n {
      return false;
    }
    WriteRecord(ntxt, deg, e.hi, e.lo, e.times);
    forall v | 0 <= v < n
      ensures deg[v] == |Neighbours(es[..k + 1], v)| && ntxt[v] == Text(BlockLines(Neighbours(es[..k + 1], v)))
    {
      WrittenStep(es, k, v, old(ntxt[v]));
      TouchLines(e, v);
      Associative(old(ntxt[v]), if e.lo == v then Text(RecordLines((e.hi, e.times))) else "",
        if e.hi == v then Text(RecordLines((e.lo, e.times))) else "");
    }
    ok := true;
  }

  /** The emission loop of tsir_compare.py:59-70 over the edges in sorted order. */
  method Emit(ntxt: array<string>, deg: array<nat>, es: seq<Edge>) returns (ok: bool)
    requires ntxt.Length == deg.Length
    requires forall v :: 0 <= v < ntxt.Length ==> ntxt[v] == "" && deg[v] == 0
    modifies ntxt, deg
    ensures ok <==> forall j :: 0 <= j < |es| ==> es[j].lo < ntxt.Length && es[j].hi < ntxt.Length
    ensures ok ==> Written(ntxt, deg, es)
  {
    assert es[..0] == [];
    var k := 0;
    while k < |es|
      invariant 0 <= k <= |es|
      invariant Written(ntxt, deg, es[..k])
      invariant forall j :: 0 <= j < k ==> es[j].lo < ntxt.Length && es[j].hi < ntxt.Length
    {
      ok := WriteEdge(ntxt, deg, es, k);
      if !ok {
        return false;
      }
      k := k + 1;
    }
    assert es[..|es|] == es;
    ok := true;
  }

  /** The assembly of tsir_compare.py:72-74: the header, then every node's degree and block. */
  method Assemble(n: nat, tmax: nat, ntxt: array<string>, deg: array<nat>, ghost es: seq<Edge>)
    returns (nwk: string)
    requires ntxt.Length == deg.Length == n && Written(ntxt, deg, es)
    ensures nwk == Text(TxtLines(es, n, tmax))
  {
    nwk := Decimal(n) + " " + Decimal(tmax) + "\n";
    TwoNumbers(n, tmax);
    var i := 0;
    while i < n
      invariant 0 <= i <= n
      invariant nwk == Text([[n, tmax]] + NodesFrom(es, 0, i))
    {
      AssembleStep(es, n, tmax, i);
      Associative(nwk, Decimal(deg[i]) + "\n", ntxt[i]);
      nwk := nwk + (Decimal(deg[i]) + "\n" + ntxt[i]);
      i := i + 1;
    }
  }

  lemma AssembleStep(es: seq<Edge>, n: nat, tmax: nat, i: nat)
    ensures Text([[n, tmax]] + NodesFrom(es, 0, i + 1))
      == Text([[n, tmax]] + NodesFrom(es, 0, i))
         + (Decimal(|Neighbours(es, i)|) + "\n") + Text(BlockLines(Neighbours(es, i)))
  {
    var header: seq<Line> := [[n, tmax]];
    OneNumber(|Neighbours(es, i)|);
    NodesFromAppend(es, 0, i);
    TextAppend([[|Neighbours(es, i)|]], BlockLines(Neighbours(es, i)));
    Associative(header, NodesFrom(es, 0, i), NodeLines(es, i));
    TextAppend(header + NodesFrom(es, 0, i), NodeLines(es, i));
  }

  /** Every contact's edge is written. */
  lemma ContactHasEdge(a: seq<Contact>, j: nat)
    requires j < |a|
    ensures exists m :: 0 <= m < |SortByKey(Group(a))| && KeyOf(SortByKey(Group(a))[m]) == Key(a[j])
  {
    var d := Group(a);
    GroupGroupsContacts(a);
    SortByKeySortsAndPermutes(d);
    ContactsAreFiled(a, j);
    var i := Find(d, Key(a[j]));
    assert d[i] in multiset(SortByKey(d));
    var m :| 0 <= m < |SortByKey(d)| && SortByKey(d)[m] == d[i];
  }

  /** Every written edge is the edge of some contact. */
  lemma EdgeHasContact(a: seq<Contact>, m: nat)
    requires m < |SortByKey(Group(a))|
    ensures exists j :: 0 <= j < |a| && Key(a[j]) == KeyOf(SortByKey(Group(a))[m])
  {
    var d := Group(a);
    GroupGroupsContacts(a);
    SortByKeySortsAndPermutes(d);
    var e := SortByKey(d)[m];
    assert e in multiset(d);
    var i :| 0 <= i < |d| && d[i] == e;
    TimesOfFromContacts(a, KeyOf(e), 0);
  }

  /** The written edges have all endpoints below `n` exactly when every contact has. */
  lemma EdgesInRangeIffContactsInRange(a: seq<Contact>, n: nat)
    ensures var es := SortByKey(Group(a));
      (forall j :: 0 <= j < |es| ==> es[j].lo < n && es[j].hi < n)
      <==> (forall j :: 0 <= j < |a| ==> a[j].left < n && a[j].right < n)
  {
    var es := SortByKey(Group(a));
    if forall m :: 0 <= m < |es| ==> es[m].lo < n && es[m].hi < n {
      forall j | 0 <= j < |a| ensures a[j].left < n && a[j].right < n {
        ContactHasEdge(a, j);
      }
    }
    if forall j :: 0 <= j < |a| ==> a[j].left < n && a[j].right < n {
      forall m | 0 <= m < |es| ensures es[m].lo < n && es[m].hi < n {
        EdgeHasContact(a, m);
      }
    }
  }

  /** `txt`: group the contacts by edge, raise `IndexError` on an empty contact array
      (`a[-1,2]`) or on an endpoint outside `0 .. n - 1` (`deg[v]`), and otherwise write the
      header and every node's block. */
  method Txt(a: seq<Contact>, n: nat) returns (r: Outcome<string>)
    ensures r.IndexError? <==> |a| == 0 || exists j :: 0 <= j < |a| && (a[j].left >= n || a[j].right >= n)
    ensures r.Done? ==> |a| > 0 && r.value == Text(TxtOf(a, n))
  {
    var tdic := Tabulate(a);
    var ntxt := new string[n](_ => "");
    if |a| == 0 {
      return IndexError;
    }
    var tmax := a[|a| - 1].t;
    var deg := new nat[n](_ => 0);
    var es := SortByKey(tdic);
    EdgesInRangeIffContactsInRange(a, n);
    var ok := Emit(ntxt, deg, es);
    if !ok {
      return IndexError;
    }
    var nwk := Assemble(n, tmax, ntxt, deg, es);
    r := Done(nwk);
  }

  // ---------------------------------------------------------------- txt: what the file says

  /** One entry of the table: normalised, non-empty, and holding its key's times. */
  lemma GroupEntry(a: seq<Contact>, i: nat)
    requires i < |Group(a)|
    ensures var e := Group(a)[i];
      e.lo <= e.hi && |e.times| > 0 && e.times == TimesOf(a, KeyOf(e))
  {
    GroupGroupsContacts(a);
  }

  /** Sorting neither loses nor invents entries: each written edge is an entry of the table. */
  lemma SortedEdgeIsEntry(d: seq<Edge>, j: nat)
    requires j < |SortByKey(d)|
    ensures exists i :: 0 <= i < |d| && d[i] == SortByKey(d)[j]
  {
    SortByKeySortsAndPermutes(d);
    assert SortByKey(d)[j] in multiset(d);
  }

  /** The record of neighbour `w` in node `v`'s block holds exactly the times of the contacts
      between `v` and `w`, in input order; when the contacts are in time order the list is
      sorted, and it is never empty. */
  lemma RecordHoldsEdgeTimes(a: seq<Contact>, v: nat, m: nat)
    requires m < |Neighbours(SortByKey(Group(a)), v)|
    ensures var r := Neighbours(SortByKey(Group(a)), v)[m];
      && r.1 == TimesOf(a, Key(Contact(v, r.0, 0)))
      && |r.1| > 0
      && (TimeOrdered(a) ==> Sorted(r.1))
  {
    var d := Group(a);
    var es := SortByKey(d);
    var r := Neighbours(es, v)[m];
    NeighbourFromEdge(es, v, m);
    var j :| 0 <= j < |es| && r.1 == es[j].times && Touches(es[j], v, r.0);
    SortedEdgeIsEntry(d, j);
    var i :| 0 <= i < |d| && d[i] == es[j];
    GroupEntry(a, i);
    assert KeyOf(d[i]) == Key(Contact(v, r.0, 0));
    if TimeOrdered(a) {
      TimesOfSorted(a, KeyOf(d[i]));
    }
  }

  /** In the file `txt` writes, every node's neighbour lists come in non-increasing order of
      last contact: the order the event-driven simulator's early `break` relies on. */
  lemma TxtOrdersNeighbours(a: seq<Contact>, v: nat)
    ensures var ns := Neighbours(SortByKey(Group(a)), v);
      ByLastContact(seq(|ns|, i requires 0 <= i < |ns| => ns[i].1))
  {
    var d := Group(a);
    var es := SortByKey(d);
    GroupGroupsContacts(a);
    SortByKeySortsAndPermutes(d);
    forall j | 0 <= j < |es| ensures |es[j].times| > 0 {
      assert es[j] in multiset(d);
      var i :| 0 <= i < |d| && d[i] == es[j];
    }
    NeighboursByLastContact(es, v);
  }

  /** Reads `count` lines of one number each: the times of a record. */
  function ReadTimes(lines: seq<Line>, count: nat): (r: Option<(seq<nat>, seq<Line>)>)
    ensures r.Some? ==> |r.value.1| <= |lines|
  {
    if count == 0 then Some(([], lines))
    else if lines == [] || |lines[0]| != 1 then None
    else
      match ReadTimes(lines[1..], count - 1)
      case None => None
      case Some((ts, rest)) => Some(([lines[0][0]] + ts, rest))
  }

  /** Reads `count` neighbour records: `w len` and `len` times each. */
  function ReadRecords(lines: seq<Line>, count: nat): Option<(seq<Neighbour>, seq<Line>)>
    decreases count
  {
    if count == 0 then Some(([], lines))
    else if lines == [] || |lines[0]| != 2 then None
    else
      match ReadTimes(lines[1..], lines[0][1])
      case None => None
      case Some((ts, rest)) =>
        match ReadRecords(rest, count - 1)
        case None => None
        case Some((rs, after)) => Some(([(lines[0][0], ts)] + rs, after))
  }

  /** Reads `count` node blocks: a degree line, then that many records. */
  function ReadNodes(lines: seq<Line>, count: nat): Option<(seq<seq<Neighbour>>, seq<Line>)>
    decreases count
  {
    if count == 0 then Some(([], lines))
    else if lines == [] || |lines[0]| != 1 then None
    else
      match ReadRecords(lines[1..], lines[0][0])
      case None => None
      case Some((rs, rest)) =>
        match ReadNodes(rest, count - 1)
        case None => None
        case Some((ns, after)) => Some(([rs] + ns, after))
  }

  /** Reads an event-driven network file: the header `n tmax` and `n` node blocks. */
  function ReadTxt(lines: seq<Line>): Option<(nat, nat, seq<seq<Neighbour>>)>
  {
    if lines == [] || |lines[0]| != 2 then None
    else
      match ReadNodes(lines[1..], lines[0][0])
      case None => None
      case Some((ns, rest)) => if rest == [] then Some((lines[0][0], lines[0][1], ns)) else None
  }

  lemma {:induction false} ReadTimesOf(ts: seq<nat>, rest: seq<Line>)
    ensures ReadTimes(TimeLines(ts) + rest, |ts|) == Some((ts, rest))
  {
    if ts == [] {
      assert TimeLines(ts) + rest == rest;
    } else {
      var lines := TimeLines(ts) + rest;
      assert lines[0] == [ts[0]];
      assert lines[1..] == TimeLines(ts[1..]) + rest;
      ReadTimesOf(ts[1..], rest);
      assert [ts[0]] + ts[1..] == ts;
      assert ReadTimes(lines, |ts|) == Some(([ts[0]] + ts[1..], rest));
    }
  }

  lemma {:induction false} ReadRecordsOf(rs: seq<Neighbour>, rest: seq<Line>)
    ensures ReadRecords(BlockLines(rs) + rest, |rs|) == Some((rs, rest))
  {
    if rs == [] {
      assert BlockLines(rs) + rest == rest;
    } else {
      var lines := BlockLines(rs) + rest;
      var tail := BlockLines(rs[1..]) + rest;
      Associative(RecordLines(rs[0]), BlockLines(rs[1..]), rest);
      Associative([[rs[0].0, |rs[0].1|]], TimeLines(rs[0].1), tail);
      assert lines[0] == [rs[0].0, |rs[0].1|];
      assert lines[1..] == TimeLines(rs[0].1) + tail;
      ReadTimesOf(rs[0].1, tail);
      ReadRecordsOf(rs[1..], rest);
      assert [(rs[0].0, rs[0].1)] + rs[1..] == rs;
      assert ReadRecords(lines, |rs|) == Some(([(rs[0].0, rs[0].1)] + rs[1..], rest));
    }
  }

  /** The neighbour records of nodes `v` to `n - 1`, in node order. */
  function NeighbourTable(es: seq<Edge>, v: nat, n: nat): (t: seq<seq<Neighbour>>)
    ensures |t| == if v <= n then n - v else 0
    ensures forall i :: 0 <= i < |t| ==> t[i] == Neighbours(es, v + i)
    decreases n - v
  {
    if v >= n then [] else [Neighbours(es, v)] + NeighbourTable(es, v + 1, n)
  }

  lemma {:induction false} ReadNodesOf(es: seq<Edge>, v: nat, n: nat, rest: seq<Line>)
    requires v <= n
    ensures ReadNodes(NodesFrom(es, v, n) + rest, n - v) == Some((NeighbourTable(es, v, n), rest))
    decreases n - v
  {
    if v == n {
      assert NodesFrom(es, v, n) + rest == rest;
    } else {
      var ns := Neighbours(es, v);
      var tail := NodesFrom(es, v + 1, n) + rest;
      Associative(NodeLines(es, v), NodesFrom(es, v + 1, n), rest);
      Associative([[|ns|]], BlockLines(ns), tail);
      var lines := NodesFrom(es, v, n) + rest;
      assert lines[0] == [|ns|];
      assert lines[1..] == BlockLines(ns) + tail;
      ReadRecordsOf(ns, tail);
      ReadNodesOf(es, v + 1, n, rest);
      assert ReadNodes(lines, n - v) == Some(([ns] + NeighbourTable(es, v + 1, n), rest));
    }
  }

  ghost predicate NoEmptyLine(lines: seq<Line>)
  {
    forall i :: 0 <= i < |lines| ==> |lines[i]| > 0
  }

  lemma {:induction false} BlockLinesNotEmpty(rs: seq<Neighbour>)
    ensures NoEmptyLine(BlockLines(rs))
  {
    if rs != [] {
      BlockLinesNotEmpty(rs[1..]);
    }
  }

  lemma {:induction false} NodesFromNotEmpty(es: seq<Edge>, v: nat, n: nat)
    ensures NoEmptyLine(NodesFrom(es, v, n))
    decreases n - v
  {
    if v < n {
      BlockLinesNotEmpty(Neighbours(es, v));
      NodesFromNotEmpty(es, v + 1, n);
    }
  }

  /** Every line `txt` writes holds at least one number. */
  lemma NonEmptyTxtLines(es: seq<Edge>, n: nat, tmax: nat)
    ensures NoEmptyLine(TxtLines(es, n, tmax))
  {
    NodesFromNotEmpty(es, 0, n);
  }

  /** The lines written for edges `es` read back as the header and every node's records. */
  lemma TxtLinesReadBack(es: seq<Edge>, n: nat, tmax: nat)
    ensures ReadTxt(TxtLines(es, n, tmax)) == Some((n, tmax, NeighbourTable(es, 0, n)))
  {
    var lines := TxtLines(es, n, tmax);
    ReadNodesOf(es, 0, n, []);
    assert NodesFrom(es, 0, n) + [] == NodesFrom(es, 0, n);
    assert lines[0] == [n, tmax] && lines[1..] == NodesFrom(es, 0, n);
  }

  /** The file `txt` writes reads back, line by line and then number by number, as the node
      count, the last contact time and every node's neighbour records in written order. */
  lemma TxtReadsBack(a: seq<Contact>, n: nat)
    requires |a| > 0
    ensures ReadText(Text(TxtOf(a, n))).Some?
    ensures var es := SortByKey(Group(a));
      ReadTxt(ReadText(Text(TxtOf(a, n))).value) == Some((n, a[|a| - 1].t, NeighbourTable(es, 0, n)))
  {
    TxtLinesReadBack(SortByKey(Group(a)), n, a[|a| - 1].t);
    NonEmptyTxtLines(SortByKey(Group(a)), n, a[|a| - 1].t);
    ReadTextOf(TxtOf(a, n));
  }
}
