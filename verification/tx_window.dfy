/** The send window inside a sorted map: keys are TxSequences, and an iterator marks the oldest one.
    Walking the map from that iterator, with wraparound, visits the transmissions in the order in
    which they were numbered. */
module TxWindow {
  import opened Packets
  import opened ReliabilitySpec
  import opened ReliabilityInvariants
  import opened Arithmetic

  // ---------------------------------------------------------------- std::map iterators

  lemma {:induction false} LeastExists(s: set<nat>) returns (m: nat)
    requires s != {}
    ensures m in s && forall x :: x in s ==> m <= x
  {
    var e :| e in s;
    m := e;
    var rest := s - {e};
    assert forall x :: x in s ==> x == e || x in rest;
    if rest != {} {
      var k := LeastExists(rest);
      m := if k < e then k else e;
    }
  }

  /** The key begin() points to. */
  function Least(s: set<nat>): (m: nat)
    requires s != {}
    ensures m in s && forall x :: x in s ==> m <= x
  {
    assert exists m :: m in s && forall x :: x in s ==> m <= x by {
      var least := LeastExists(s);
    }
    var m :| m in s && forall x :: x in s ==> m <= x;
    m
  }

  /** begin(); None is end(). */
  function Begin(keys: set<nat>): Option<nat>
  {
    if keys == {} then None else Some(Least(keys))
  }

  /** The iterator after one at key `k`: the least greater key, or end(). */
  function Successor(keys: set<nat>, k: nat): (r: Option<nat>)
    ensures r.Some? ==> r.value in keys && k < r.value && forall x :: x in keys && k < x ==> r.value <= x
    ensures r.None? ==> forall x :: x in keys ==> x <= k
  {
    var greater := set x | x in keys && x > k;
    assert forall x :: x in keys && k < x ==> x in greater;
    if greater == {} then None else Some(Least(greater))
  }

  /** The key that follows `k` when the walk wraps around at end(). */
  function Circular(keys: set<nat>, k: nat): (r: nat)
    requires keys != {}
    ensures r in keys
  {
    var next := Successor(keys, k);
    if next.Some? then next.value else Least(keys)
  }

  // ---------------------------------------------------------------- the walk

  /** Numbers ascend, span less than the modulus, and give the keys. */
  predicate Narrow(w: seq<Tx>, modulus: nat)
    requires modulus > 0
  {
    Increasing(w) && KeyInv(w, modulus) && (w != [] ==> w[|w| - 1].n - w[0].n < modulus)
  }

  function Keys(w: seq<Tx>): set<nat>
  {
    set tx | tx in w :: tx.key
  }

  predicate DistinctKeys(w: seq<Tx>)
  {
    forall i, j :: 0 <= i < j < |w| ==> w[i].key != w[j].key
  }

  /** Position of the next entry of the window, wrapping around. */
  function NextIndex(w: seq<Tx>, i: nat): (j: nat)
    requires i < |w|
    ensures j < |w|
  {
    if i + 1 < |w| then i + 1 else 0
  }

  /** How far ahead of position `i` position `j` is, counting up with wraparound. */
  function Distance(w: seq<Tx>, modulus: nat, i: nat, j: nat): int
    requires i < |w| && j < |w|
  {
    if i < j then w[j].n - w[i].n else w[j].n + modulus - w[i].n
  }

  lemma NarrowSpan(w: seq<Tx>, modulus: nat, i: nat, j: nat)
    requires modulus > 0 && Narrow(w, modulus) && i < j < |w|
    ensures 0 < w[j].n - w[i].n < modulus
  {
    assert w[0].n <= w[i].n < w[j].n <= w[|w| - 1].n;
  }

  lemma Ahead(w: seq<Tx>, modulus: nat, i: nat, j: nat)
    requires modulus > 0 && Narrow(w, modulus) && i < |w| && j < |w| && i != j
    ensures var d, x := Distance(w, modulus, i, j), w[i].key;
            0 < d < modulus && w[j].key == if x + d < modulus then x + d else x + d - modulus
  {
    assert w[i] in w && w[j] in w;
    if i < j {
      NarrowSpan(w, modulus, i, j);
      ModStep(w[i].n, w[j].n - w[i].n, modulus);
    } else {
      NarrowSpan(w, modulus, j, i);
      ModStep(w[j].n, w[i].n - w[j].n, modulus);
    }
  }

  lemma NarrowDistinct(w: seq<Tx>, modulus: nat)
    requires modulus > 0 && Narrow(w, modulus)
    ensures DistinctKeys(w)
  {
    forall i, j | 0 <= i < j < |w| ensures w[i].key != w[j].key {
      Ahead(w, modulus, i, j);
    }
  }

  /** The circular walk over the keys goes from entry `i` to the next one. */
  predicate Walks(w: seq<Tx>, i: nat)
    requires i < |w|
  {
    w[i].key in Keys(w) && Circular(Keys(w), w[i].key) == w[NextIndex(w, i)].key
  }

  /** The circular walk over the keys visits the window in order. */
  predicate WalkOrder(w: seq<Tx>)
  {
    forall i :: 0 <= i < |w| ==> Walks(w, i)
  }

  lemma NarrowWalks(w: seq<Tx>, modulus: nat)
    requires modulus > 0 && Narrow(w, modulus)
    ensures WalkOrder(w)
  {
    forall i | 0 <= i < |w| ensures Walks(w, i) {
      WalkFollowsWindow(w, modulus, i);
    }
  }

  /** One step of the circular walk goes to the next transmission. */
  lemma WalkFollowsWindow(w: seq<Tx>, modulus: nat, i: nat)
    requires modulus > 0 && Narrow(w, modulus) && i < |w|
    ensures Walks(w, i)
  {
    var keys, x := Keys(w), w[i].key;
    assert w[i] in w && x in keys;
    var tx :| tx in w && tx.key == Circular(keys, x);
    var j :| 0 <= j < |w| && w[j] == tx;
    var k := NextIndex(w, i);
    assert w[k] in w && w[k].key in keys;
    if k != i {
      Ahead(w, modulus, i, k);
      StepShortest(keys, x, w[k].key);
      if j != i && j != k {
        Ahead(w, modulus, i, j);
        Further(w, modulus, i, j);
      }
    }
  }

  /** Among the other entries, the next one is the least far ahead. */
  lemma Further(w: seq<Tx>, modulus: nat, i: nat, j: nat)
    requires modulus > 0 && Narrow(w, modulus) && i < |w| && j < |w| && i != j && j != NextIndex(w, i)
    ensures Distance(w, modulus, i, NextIndex(w, i)) < Distance(w, modulus, i, j)
  {
    var k := NextIndex(w, i);
    if i < k && j < i {
      NarrowSpan(w, modulus, j, k);
    }
  }

  /** A step of the circular walk goes to another key if there is one, and skips none. */
  lemma StepShortest(keys: set<nat>, x: nat, z: nat)
    requires x in keys && z in keys && z != x
    ensures var y := Circular(keys, x);
            y != x && if x < y then z < x || y <= z else y <= z < x
  {
    if Successor(keys, x).None? { assert z <= x; }
  }

  // ---------------------------------------------------------------- the map as a window

  /** The map `frags` with its iterator `first` holds exactly the window `w`. */
  predicate Represents(frags: map<nat, UnackedFrag>, first: Option<nat>, w: seq<Tx>)
  {
    && DistinctKeys(w)
    && frags.Keys == Keys(w)
    && (forall tx :: tx in w ==> tx.key in frags && frags[tx.key] == tx.frag)
    && first == if w == [] then None else Some(w[0].key)
  }

  /** `k`-th key of the walk that starts at the iterator. */
  function WalkKey(frags: map<nat, UnackedFrag>, first: nat, k: nat): (r: nat)
    requires first in frags
    ensures r in frags
  {
    if k == 0 then first
    else
      var prev := WalkKey(frags, first, k - 1);
      Circular(frags.Keys, prev)
  }

  /** Walking the map circularly from the iterator gives the order in which TxSequences were assigned. */
  lemma WalkIsAssignmentOrder(frags: map<nat, UnackedFrag>, first: Option<nat>, w: seq<Tx>, modulus: nat, k: nat)
    requires modulus > 0 && Represents(frags, first, w) && Narrow(w, modulus) && k < |w|
    ensures first.Some? && first.value in frags
    ensures WalkKey(frags, first.value, k) == w[k].key
  {
    NarrowWalks(w, modulus);
    WalkAt(frags, w, k);
  }

  lemma WalkStep(frags: map<nat, UnackedFrag>, w: seq<Tx>, k: nat)
    requires frags.Keys == Keys(w) && WalkOrder(w) && k + 1 < |w|
    ensures w[k].key in frags && Circular(frags.Keys, w[k].key) == w[k + 1].key
  {
    assert Walks(w, k);
  }

  lemma {:induction false} WalkAt(frags: map<nat, UnackedFrag>, w: seq<Tx>, k: nat)
    requires frags.Keys == Keys(w) && WalkOrder(w) && k < |w|
    ensures w[0].key in frags && WalkKey(frags, w[0].key, k) == w[k].key
  {
    assert w[0] in w;
    if k > 0 {
      WalkAt(frags, w, k - 1);
      WalkStep(frags, w, k - 1);
    }
  }

  /** The iterator is at end() exactly when the map is empty. */
  lemma EndIffEmpty(frags: map<nat, UnackedFrag>, first: Option<nat>, w: seq<Tx>)
    requires Represents(frags, first, w)
    ensures first.None? <==> frags == map[]
    ensures |frags| == |w|
  {
    if w != [] { assert w[0] in w; }
    KeyCount(w);
    assert |frags| == |frags.Keys|;
  }

  lemma {:induction false} KeyCount(w: seq<Tx>)
    requires DistinctKeys(w)
    ensures |Keys(w)| == |w|
  {
    if w == [] {
      assert Keys(w) == {};
    } else {
      var v, last := w[..|w| - 1], w[|w| - 1];
      assert w == v + [last];
      KeyCount(v);
      KeysAppend(v, last);
      assert last.key !in Keys(v);
    }
  }

  lemma KeysAppend(w: seq<Tx>, tx: Tx)
    ensures Keys(w + [tx]) == Keys(w) + {tx.key}
  {
  }

  // ---------------------------------------------------------------- assigning

  /** The new TxSequence meets the start of the window exactly when the window is full. */
  lemma FullIsCollision(l: Ledger, o: Options)
    requires o.modulus > 0 && WindowInv(l, o) && KeyInv(l.window, o.modulus) && l.window != []
    ensures |l.log| % o.modulus == l.window[0].key <==> Full(l, o)
  {
    var a := l.window[0].n;
    assert l.window[0] in l.window;
    var d := |l.log| - a;
    if d < o.modulus {
      ModStep(a, d, o.modulus);
    } else {
      assert a == (a / o.modulus) * o.modulus + a % o.modulus;
      DivUnique(a + o.modulus, o.modulus, a / o.modulus + 1, a % o.modulus);
    }
  }

  lemma WindowIsNarrow(l: Ledger, o: Options)
    requires o.modulus > 0 && WindowInv(l, o) && KeyInv(l.window, o.modulus)
    ensures Narrow(l.window, o.modulus)
  {
    if l.window != [] {
      assert l.window[0] in l.window && l.window[|l.window| - 1] in l.window;
    }
  }

  lemma NewKey(w: seq<Tx>, tx: Tx)
    requires DistinctKeys(w + [tx])
    ensures DistinctKeys(w) && forall u :: u in w ==> u.key != tx.key
  {
    var w' := w + [tx];
    assert forall i :: 0 <= i < |w| ==> w'[i] == w[i];
    forall u | u in w ensures u.key != tx.key {
      var j :| 0 <= j < |w| && w[j] == u;
      assert w'[j].key != w'[|w|].key;
    }
  }

  lemma AddKey(frags: map<nat, UnackedFrag>, k: nat, frag: UnackedFrag)
    requires k !in frags
    ensures frags[k := frag].Keys == frags.Keys + {k} && |frags[k := frag]| == |frags.Keys| + 1
  {
    assert frags[k := frag].Keys == frags.Keys + {k};
  }

  lemma InsertKeys(frags: map<nat, UnackedFrag>, w: seq<Tx>, tx: Tx)
    requires frags.Keys == Keys(w) && DistinctKeys(w) && tx.key !in frags
    ensures var frags' := frags[tx.key := tx.frag]; frags'.Keys == Keys(w + [tx]) && |frags'| == |w| + 1
  {
    KeysAppend(w, tx);
    KeyCount(w);
    AddKey(frags, tx.key, tx.frag);
  }

  lemma InsertFirst(keys: set<nat>, k: nat)
    requires keys == {k}
    ensures Begin(keys) == Some(k)
  {
    assert Least(keys) in {k};
  }

  /** Storing a new transmission appends it to the represented window. */
  lemma InsertRepresents(frags: map<nat, UnackedFrag>, first: Option<nat>, w: seq<Tx>, tx: Tx)
    requires Represents(frags, first, w) && DistinctKeys(w + [tx])
    ensures tx.key !in frags
    ensures var frags' := frags[tx.key := tx.frag];
            Represents(frags', if |frags'| == 1 then Begin(frags'.Keys) else first, w + [tx])
  {
    NewKey(w, tx);
    InsertKeys(frags, w, tx);
    if w == [] {
      assert frags[tx.key := tx.frag].Keys == {tx.key};
      InsertFirst({tx.key}, tx.key);
    }
  }

  // ---------------------------------------------------------------- erasing

  lemma LastOfSum(a: seq<Tx>, b: seq<Tx>)
    requires b != []
    ensures (a + b)[..|a + b| - 1] == a + b[..|b| - 1] && (a + b)[|a + b| - 1] == b[|b| - 1]
  {
  }

  lemma {:induction false} WithoutAppend(a: seq<Tx>, b: seq<Tx>, gone: set<nat>)
    ensures Without(a + b, gone) == Without(a, gone) + Without(b, gone)
  {
    if b == [] {
      assert a + b == a;
    } else {
      WithoutAppend(a, b[..|b| - 1], gone);
      LastOfSum(a, b);
    }
  }

  lemma WithoutMiddle(a: seq<Tx>, t: Tx, b: seq<Tx>)
    requires (forall u :: u in a ==> u.n != t.n) && (forall u :: u in b ==> u.n != t.n)
    ensures Without((a + [t]) + b, {t.n}) == a + b
  {
    WithoutAppend(a + [t], b, {t.n});
    WithoutAppend(a, [t], {t.n});
    WithoutNone(a, t.n);
    WithoutNone(b, t.n);
    assert Without([t], {t.n}) == [] && a + [] == a;
  }

  lemma SplitAt(w: seq<Tx>, i: nat)
    requires i < |w|
    ensures (w[..i] + [w[i]]) + w[i + 1..] == w
  {
  }

  lemma OthersDiffer(w: seq<Tx>, i: nat)
    requires Increasing(w) && i < |w|
    ensures (forall u :: u in w[..i] ==> u.n != w[i].n) && (forall u :: u in w[i + 1..] ==> u.n != w[i].n)
  {
  }

  lemma WithoutOne(w: seq<Tx>, i: nat)
    requires Increasing(w) && i < |w|
    ensures Without(w, {w[i].n}) == w[..i] + w[i + 1..]
  {
    SplitAt(w, i);
    OthersDiffer(w, i);
    WithoutMiddle(w[..i], w[i], w[i + 1..]);
  }

  lemma {:induction false} WithoutNone(w: seq<Tx>, n: nat)
    requires forall i :: 0 <= i < |w| ==> w[i].n != n
    ensures Without(w, {n}) == w
  {
    if w != [] {
      WithoutNone(w[..|w| - 1], n);
      assert w == w[..|w| - 1] + [w[|w| - 1]];
    }
  }

  /** m_firstUnackedFrag after erasing key `k`. */
  function FirstAfterErase(frags: map<nat, UnackedFrag>, first: Option<nat>, k: nat): Option<nat>
  {
    var keys := frags.Keys - {k};
    if keys == {} then None
    else if first == Some(k) then
      var next := Successor(keys, k);
      if next.None? then Begin(keys) else next
    else first
  }

  /** Erasing the key of the entry at position `i` takes that entry out of the represented window. */
  lemma EraseRepresents(frags: map<nat, UnackedFrag>, first: Option<nat>, w: seq<Tx>, i: nat)
    requires Represents(frags, first, w) && Increasing(w) && WalkOrder(w) && i < |w|
    ensures w[i].key in frags
    ensures Represents(frags - {w[i].key}, FirstAfterErase(frags, first, w[i].key), Without(w, {w[i].n}))
  {
    var v := w[..i] + w[i + 1..];
    assert w[i] in w;
    WithoutOne(w, i);
    DistinctWithout(w, i);
    KeysWithout(w, i);
    EraseFirst(frags, first, w, i);
    assert forall tx :: tx in v ==> tx in w && tx.key in Keys(v);
  }

  lemma DistinctWithout(w: seq<Tx>, i: nat)
    requires DistinctKeys(w) && i < |w|
    ensures DistinctKeys(w[..i] + w[i + 1..])
  {
    var v := w[..i] + w[i + 1..];
    assert forall j :: 0 <= j < |v| ==> v[j] == w[if j < i then j else j + 1];
  }

  lemma KeysWithout(w: seq<Tx>, i: nat)
    requires DistinctKeys(w) && i < |w|
    ensures Keys(w[..i] + w[i + 1..]) == Keys(w) - {w[i].key}
  {
    var v := w[..i] + w[i + 1..];
    forall x | x in Keys(v) ensures x in Keys(w) - {w[i].key} {
      var j :| 0 <= j < |v| && v[j].key == x;
      var k := if j < i then j else j + 1;
      assert w[k] == v[j] && w[k] in w;
    }
    forall x | x in Keys(w) - {w[i].key} ensures x in Keys(v) {
      var j :| 0 <= j < |w| && w[j].key == x;
      var k := if j < i then j else j - 1;
      assert v[k] == w[j] && v[k] in v;
    }
  }

  lemma EraseFirst(frags: map<nat, UnackedFrag>, first: Option<nat>, w: seq<Tx>, i: nat)
    requires Represents(frags, first, w) && WalkOrder(w) && i < |w|
    requires Keys(w[..i] + w[i + 1..]) == Keys(w) - {w[i].key}
    ensures var v := w[..i] + w[i + 1..];
            FirstAfterErase(frags, first, w[i].key) == if v == [] then None else Some(v[0].key)
  {
    var k := w[i].key;
    var v := w[..i] + w[i + 1..];
    if v != [] {
      assert v[0] in v && v[0].key in frags.Keys - {k};
      if i == 0 {
        assert v[0] == w[1] && Walks(w, 0);
        EraseStep(frags.Keys, k);
      } else {
        assert v[0] == w[0] && w[0].key != w[i].key;
      }
    }
  }

  /** Erasing a key and going to the next, wrapping around, is a step of the walk. */
  lemma EraseStep(keys: set<nat>, k: nat)
    requires k in keys && keys - {k} != {}
    ensures Some(Circular(keys, k)) ==
            var next := Successor(keys - {k}, k); if next.None? then Begin(keys - {k}) else next
  {
    var e :| e in keys - {k};
    StepShortest(keys, k, e);
    var next, next' := Successor(keys, k), Successor(keys - {k}, k);
    if next.Some? {
      assert next.value in keys - {k};
    } else {
      assert Least(keys) in keys - {k};
      assert Least(keys - {k}) in keys;
    }
  }

  // ---------------------------------------------------------------- counting Acks

  lemma BumpNone(w: seq<Tx>)
    ensures Bump(w, 0) == w
  {
  }

  lemma BumpKeys(w: seq<Tx>, i: nat)
    requires i <= |w|
    ensures Keys(Bump(w, i)) == Keys(w)
  {
    var b := Bump(w, i);
    forall x | x in Keys(b) ensures x in Keys(w) {
      var j :| 0 <= j < |w| && b[j].key == x;
      assert w[j] in w;
    }
    forall x | x in Keys(w) ensures x in Keys(b) {
      var j :| 0 <= j < |w| && w[j].key == x;
      assert b[j] in b;
    }
  }

  /** Bumping the entry at position `i` in the map does it in the represented window. */
  lemma BumpNext(w: seq<Tx>, i: nat)
    requires i < |w|
    ensures Bump(w, i)[i] == w[i] && Bump(w, i + 1)[i] == Bumped(w[i])
    ensures forall j :: 0 <= j < |w| && j != i ==> Bump(w, i + 1)[j] == Bump(w, i)[j]
  {
  }

  /** One entry of the map is replaced, under the same key. */
  lemma ReplaceRepresents(frags: map<nat, UnackedFrag>, first: Option<nat>, b: seq<Tx>, c: seq<Tx>, i: nat)
    requires Represents(frags, first, b) && i < |b| == |c| && c[i].key == b[i].key
    requires forall j :: 0 <= j < |b| && j != i ==> c[j] == b[j]
    requires Keys(b) == Keys(c)
    ensures Represents(frags[b[i].key := c[i].frag], first, c)
  {
    var k, frags' := b[i].key, frags[b[i].key := c[i].frag];
    assert b[i] in b;
    assert frags'.Keys == frags.Keys;
    forall j | 0 <= j < |c| ensures c[j].key in frags' && frags'[c[j].key] == c[j].frag {
      assert b[j] in b;
      if j < i { assert b[j].key != b[i].key; }
      if i < j { assert b[i].key != b[j].key; }
    }
    assert forall j :: 0 <= j < |b| ==> c[j].key == b[j].key;
  }

  lemma BumpRepresents(frags: map<nat, UnackedFrag>, first: Option<nat>, w: seq<Tx>, i: nat)
    requires i < |w| && Represents(frags, first, Bump(w, i))
    ensures w[i].key in frags && frags[w[i].key] == w[i].frag
    ensures Represents(frags[w[i].key := Bumped(w[i]).frag], first, Bump(w, i + 1))
  {
    BumpNext(w, i);
    assert Bump(w, i)[i] in Bump(w, i);
    BumpKeys(w, i);
    BumpKeys(w, i + 1);
    ReplaceRepresents(frags, first, Bump(w, i), Bump(w, i + 1), i);
  }
}
