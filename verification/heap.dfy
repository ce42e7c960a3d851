/** The binary min-heap of pending infection events, stated on the values of its arrays:
    `h[1..m]` are the live slots of `g.heap` (slot 0 unused), `p[v]` is the heap position of
    node `v` (`NoneMark` when it is not on the heap) and `ts[v]` its scheduled time. The
    parent of slot `c` is slot `c / 2`. These are the facts one sift step or one update of the
    engine needs; the engine's methods apply them to the contents of its arrays. */
module EventHeap {
  import opened Machine
  import opened ContactFinder

  /** Slots and positions agree: slot `k` holds a node whose position is `k`, and a node
      with a position sits in that live slot. */
  ghost predicate Slots(h: seq<nat>, p: seq<Uint32>, m: nat)
  {
    && m < |h| && |p| + 1 == |h| && |p| < NoneMark
    && (forall k :: 1 <= k <= m ==> h[k] < |p| && p[h[k]] == k)
    && (forall v :: 0 <= v < |p| && p[v] != NoneMark ==> 1 <= p[v] <= m && h[p[v]] == v)
  }

  /** Slot `c` is no earlier than its parent. */
  ghost predicate InOrder(ts: seq<Uint32>, h: seq<nat>, c: nat)
  {
    2 <= c < |h| && h[c / 2] < |ts| && h[c] < |ts| && ts[h[c / 2]] <= ts[h[c]]
  }

  /** Heap order on the live slots, except possibly between slot `hole` and its parent. */
  ghost predicate OrderedExcept(ts: seq<Uint32>, h: seq<nat>, m: nat, hole: nat)
  {
    forall c :: 2 <= c <= m && c != hole ==> InOrder(ts, h, c)
  }

  /** Heap order on the live slots, except possibly between slot `top` and its children. */
  ghost predicate OrderedBelow(ts: seq<Uint32>, h: seq<nat>, m: nat, top: nat)
  {
    forall c :: 2 <= c <= m && c / 2 != top ==> InOrder(ts, h, c)
  }

  /** Heap order on the live slots. */
  ghost predicate Ordered(ts: seq<Uint32>, h: seq<nat>, m: nat)
  {
    OrderedExcept(ts, h, m, 0)
  }

  /** The parent of slot `k` is no later than the children of slot `k`, so either may move
      into slot `k` without breaking the order with the other. */
  ghost predicate Bridged(ts: seq<Uint32>, h: seq<nat>, m: nat, k: nat)
    requires m < |h| && forall j :: 1 <= j <= m ==> h[j] < |ts|
  {
    2 <= k <= m ==>
      && (2 * k <= m ==> ts[h[k / 2]] <= ts[h[2 * k]])
      && (2 * k + 1 <= m ==> ts[h[k / 2]] <= ts[h[2 * k + 1]])
  }

  /** The heap contents after exchanging slots `i` and `j`, positions updated. */
  function SwapSlots(h: seq<nat>, i: nat, j: nat): (h': seq<nat>)
    requires i < |h| && j < |h|
    ensures |h'| == |h| && h'[i] == h[j] && h'[j] == h[i]
    ensures forall k :: 0 <= k < |h| && k != i && k != j ==> h'[k] == h[k]
  {
    h[i := h[j]][j := h[i]]
  }

  function SwapPositions(h: seq<nat>, p: seq<Uint32>, i: nat, j: nat): (p': seq<Uint32>)
    requires i < |h| && j < |h| && h[i] < |p| && h[j] < |p| && i < Modulus32 && j < Modulus32
    ensures |p'| == |p|
  {
    p[h[j] := i][h[i] := j]
  }

  /** Exchanging two live slots and their nodes' positions keeps slots and positions in
      agreement and leaves the set of nodes on the heap unchanged. */
  lemma SwapKeepsSlots(h: seq<nat>, p: seq<Uint32>, m: nat, i: nat, j: nat)
    requires Slots(h, p, m) && 1 <= i <= m && 1 <= j <= m && i != j
    ensures Slots(SwapSlots(h, i, j), SwapPositions(h, p, i, j), m)
    ensures forall v :: 0 <= v < |p| ==>
      (SwapPositions(h, p, i, j)[v] == NoneMark <==> p[v] == NoneMark)
  {
    var h', p' := SwapSlots(h, i, j), SwapPositions(h, p, i, j);
    assert h[i] != h[j] by {
      assert p[h[i]] == i && p[h[j]] == j;
    }
    forall v | 0 <= v < |p| && p'[v] != NoneMark ensures 1 <= p'[v] <= m && h'[p'[v]] == v {
      if v != h[i] && v != h[j] {
        assert p'[v] == p[v];
      }
    }
  }

  /** One step of the sift-up: when slot `k` is earlier than its parent, exchanging them
      moves the possible violation one level up. */
  lemma UpStep(ts: seq<Uint32>, h: seq<nat>, m: nat, k: nat)
    requires m < |h| && forall j :: 1 <= j <= m ==> h[j] < |ts|
    requires 2 <= k <= m && OrderedExcept(ts, h, m, k) && Bridged(ts, h, m, k)
    requires ts[h[k]] < ts[h[k / 2]]
    ensures var h' := SwapSlots(h, k, k / 2);
      OrderedExcept(ts, h', m, k / 2) && Bridged(ts, h', m, k / 2)
  {
    var h' := SwapSlots(h, k, k / 2);
    var q := k / 2;
    forall c | 2 <= c <= m && c != q ensures InOrder(ts, h', c) {
      if c == k {
      } else if c / 2 == k {
        assert InOrder(ts, h, c);
      } else if c / 2 == q {
        assert InOrder(ts, h, c);
      } else if c == q {
      } else {
        assert InOrder(ts, h, c);
      }
    }
    if 2 <= q {
      assert InOrder(ts, h, q);
      if 2 * q <= m { assert 2 * q == k || InOrder(ts, h, 2 * q); }
      if 2 * q + 1 <= m { assert 2 * q + 1 == k || InOrder(ts, h, 2 * q + 1); }
    }
  }

  /** The sift-up stops with the heap ordered: at the root, or below a parent that is no
      later. */
  lemma UpDone(ts: seq<Uint32>, h: seq<nat>, m: nat, k: nat)
    requires m < |h| && forall j :: 1 <= j <= m ==> h[j] < |ts|
    requires 1 <= k <= m && OrderedExcept(ts, h, m, k)
    requires k == 1 || ts[h[k / 2]] <= ts[h[k]]
    ensures Ordered(ts, h, m)
  {
    if k >= 2 {
      assert InOrder(ts, h, k);
    }
  }

  /** One step of the sift-down: exchanging slot `k` with its earlier child `s`, the earliest
      of the three, moves the possible violation one level down. */
  lemma DownStep(ts: seq<Uint32>, h: seq<nat>, m: nat, k: nat, s: nat)
    requires m < |h| && forall j :: 1 <= j <= m ==> h[j] < |ts|
    requires 1 <= k && (s == 2 * k || s == 2 * k + 1) && s <= m
    requires OrderedBelow(ts, h, m, k) && Bridged(ts, h, m, k)
    requires ts[h[s]] < ts[h[k]]
    requires 2 * k <= m ==> ts[h[s]] <= ts[h[2 * k]]
    requires 2 * k + 1 <= m ==> ts[h[s]] <= ts[h[2 * k + 1]]
    ensures var h' := SwapSlots(h, k, s);
      OrderedBelow(ts, h', m, s) && Bridged(ts, h', m, s)
  {
    var h' := SwapSlots(h, k, s);
    forall c | 2 <= c <= m && c / 2 != s ensures InOrder(ts, h', c) {
      if c == s {
      } else if c / 2 == k {
      } else if c == k {
      } else {
        assert InOrder(ts, h, c);
      }
    }
    if 2 * s <= m { assert InOrder(ts, h, 2 * s); }
    if 2 * s + 1 <= m { assert InOrder(ts, h, 2 * s + 1); }
  }

  /** The sift-down stops with the heap ordered when no child of slot `k` is earlier. */
  lemma DownDone(ts: seq<Uint32>, h: seq<nat>, m: nat, k: nat)
    requires m < |h| && forall j :: 1 <= j <= m ==> h[j] < |ts|
    requires 1 <= k <= m && OrderedBelow(ts, h, m, k)
    requires 2 * k <= m ==> ts[h[k]] <= ts[h[2 * k]]
    requires 2 * k + 1 <= m ==> ts[h[k]] <= ts[h[2 * k + 1]]
    ensures Ordered(ts, h, m)
  {
    forall c | 2 <= c <= m ensures InOrder(ts, h, c) {
      if c / 2 == k {
        assert c == 2 * k || c == 2 * k + 1;
      }
    }
  }

  /** Lowering the time of a node on the heap can only break the order between its slot and
      that slot's parent, and the slot's old time bridges its parent and children. */
  lemma LowerKeepsOrderBelow(ts: seq<Uint32>, h: seq<nat>, p: seq<Uint32>, m: nat, v: nat, t: Uint32)
    requires Slots(h, p, m) && |ts| == |p| && Ordered(ts, h, m)
    requires v < |p| && p[v] != NoneMark && t <= ts[v]
    ensures OrderedExcept(ts[v := t], h, m, p[v] as nat)
    ensures Bridged(ts[v := t], h, m, p[v] as nat)
  {
    var ts', k := ts[v := t], p[v] as nat;
    forall c | 2 <= c <= m && c != k ensures InOrder(ts', h, c) {
      assert InOrder(ts, h, c);
      assert h[c] != v by {
        assert p[h[c]] == c;
      }
    }
    if 2 <= k {
      if 2 * k <= m {
        assert InOrder(ts, h, k) && InOrder(ts, h, 2 * k);
        assert p[h[2 * k]] == 2 * k && p[h[k / 2]] == k / 2;
      }
      if 2 * k + 1 <= m {
        assert InOrder(ts, h, k) && InOrder(ts, h, 2 * k + 1);
        assert p[h[2 * k + 1]] == 2 * k + 1 && p[h[k / 2]] == k / 2;
      }
    }
  }

  /** Changing the time of a node that is not on the heap leaves the order alone. */
  lemma OffHeapTimeKeepsOrder(ts: seq<Uint32>, h: seq<nat>, p: seq<Uint32>, m: nat, v: nat, t: Uint32)
    requires Slots(h, p, m) && |ts| == |p| && Ordered(ts, h, m)
    requires v < |p| && p[v] == NoneMark
    ensures Ordered(ts[v := t], h, m)
  {
    var ts' := ts[v := t];
    forall c | 2 <= c <= m ensures InOrder(ts', h, c) {
      assert InOrder(ts, h, c);
      assert h[c] != v && h[c / 2] != v by {
        assert p[h[c]] == c && p[h[c / 2]] == c / 2;
      }
    }
  }

  /** Appending a node that is not on the heap at slot `m + 1`: slots and positions still
      agree, and the order can only be broken between the new slot and its parent. The new
      node's time may already have been set, since it did not take part in the order. */
  lemma AppendKeepsSlots(ts: seq<Uint32>, h: seq<nat>, p: seq<Uint32>, m: nat, v: nat, t: Uint32)
    requires Slots(h, p, m) && |ts| == |p| && Ordered(ts, h, m)
    requires v < |p| && p[v] == NoneMark && m + 1 < |h|
    ensures Slots(h[m + 1 := v], p[v := m + 1], m + 1)
    ensures OrderedExcept(ts[v := t], h[m + 1 := v], m + 1, m + 1)
    ensures Bridged(ts[v := t], h[m + 1 := v], m + 1, m + 1)
  {
    var ts', h', p' := ts[v := t], h[m + 1 := v], p[v := m + 1];
    forall c | 2 <= c <= m ensures InOrder(ts', h', c) {
      assert InOrder(ts, h, c);
      assert h[c] != v && h[c / 2] != v by {
        assert p[h[c]] == c && p[h[c / 2]] == c / 2;
      }
    }
    forall u | 0 <= u < |p'| && p'[u] != NoneMark ensures 1 <= p'[u] <= m + 1 && h'[p'[u]] == u {
      if u != v {
        assert p'[u] == p[u];
      }
    }
  }

  /** Moving the last slot to the root and clearing the old root's position: slots and
      positions still agree on `m - 1` slots, only the new root may be out of order with its
      children, and no other node enters or leaves the heap. */
  lemma RemoveRootKeepsSlots(ts: seq<Uint32>, h: seq<nat>, p: seq<Uint32>, m: nat)
    requires Slots(h, p, m) && |ts| == |p| && Ordered(ts, h, m) && m >= 1
    ensures var h', p' := h[1 := h[m]], p[h[m] := 1][h[1] := NoneMark];
      && Slots(h', p', m - 1)
      && OrderedBelow(ts, h', m - 1, 1)
      && forall v :: 0 <= v < |p| && v != h[1] ==> (p'[v] == NoneMark <==> p[v] == NoneMark)
  {
    var h', p' := h[1 := h[m]], p[h[m] := 1][h[1] := NoneMark];
    forall c | 2 <= c <= m - 1 && c / 2 != 1 ensures InOrder(ts, h', c) {
      assert InOrder(ts, h, c);
    }
    forall v | 0 <= v < |p'| && p'[v] != NoneMark ensures 1 <= p'[v] <= m - 1 && h'[p'[v]] == v {
      if v != h[m] && v != h[1] {
        assert p'[v] == p[v];
        assert p[v] != m by {
          assert h[p[v]] == v;
        }
      }
    }
  }

  /** The root of an ordered heap is no later than any live slot. */
  lemma RootIsEarliest(ts: seq<Uint32>, h: seq<nat>, m: nat)
    requires m < |h| && (forall j :: 1 <= j <= m ==> h[j] < |ts|) && Ordered(ts, h, m)
    ensures forall k :: 1 <= k <= m ==> ts[h[1]] <= ts[h[k]]
  {
    forall k | 1 <= k <= m ensures ts[h[1]] <= ts[h[k]] {
      RootBelow(ts, h, m, k);
    }
  }

  lemma {:induction false} RootBelow(ts: seq<Uint32>, h: seq<nat>, m: nat, k: nat)
    requires m < |h| && (forall j :: 1 <= j <= m ==> h[j] < |ts|) && Ordered(ts, h, m)
    requires 1 <= k <= m
    ensures ts[h[1]] <= ts[h[k]]
    decreases k
  {
    if k > 1 {
      RootBelow(ts, h, m, k / 2);
      assert InOrder(ts, h, k);
    }
  }
}
