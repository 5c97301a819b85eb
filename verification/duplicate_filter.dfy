/** The filter of recently received Sequences in processIncomingPacket(): a map from Sequence to arrival
    time and a queue of Sequences in arrival order, in which duplicates leave repeated entries. */
module DuplicateFilter {
  datatype Filter = Filter(seqs: map<nat, nat>, queue: seq<nat>)

  /** A fragment with Sequence `seq_` arriving at `now`, while the estimated RTO is `rto`. */
  datatype Arrival = Arrival(seq_: nat, now: nat, rto: nat)

  /** m_recentRecvSeqs[k]: a missing entry is created with the clock's epoch. */
  function Touch(seqs: map<nat, nat>, k: nat): (r: map<nat, nat>)
    ensures k in r
  {
    if k in seqs then seqs else seqs[k := 0]
  }

  /** The loop that removes expired Sequences. */
  function Purge(f: Filter, now: nat, rto: nat): Filter
    decreases |f.queue|
  {
    if f.queue == [] then f
    else
      var k := f.queue[0];
      var seqs := Touch(f.seqs, k);
      if now > seqs[k] + rto then Purge(Filter(seqs - {k}, f.queue[1..]), now, rto)
      else Filter(seqs, f.queue)
  }

  /** emplace() and push(): an entry that is still there keeps its time. */
  function Record(f: Filter, a: Arrival): Filter
  {
    Filter(if a.seq_ in f.seqs then f.seqs else f.seqs[a.seq_ := a.now], f.queue + [a.seq_])
  }

  function Arrive(f: Filter, a: Arrival): Filter
  {
    Record(Purge(f, a.now, a.rto), a)
  }

  /** The filter after a history of arrivals. */
  function After(history: seq<Arrival>): Filter
  {
    if history == [] then Filter(map[], [])
    else Arrive(After(history[..|history| - 1]), history[|history| - 1])
  }

  /** Whether arrival `i` of the history is reported as a duplicate. */
  predicate IsDuplicate(history: seq<Arrival>, i: nat)
    requires i < |history|
  {
    history[i].seq_ in After(history[..i]).seqs
  }

  predicate ClockMonotone(history: seq<Arrival>)
  {
    forall i, j :: 0 <= i <= j < |history| ==> history[i].now <= history[j].now
  }

  // ---------------------------------------------------------------- no false duplicate

  predicate Carried(history: seq<Arrival>, k: nat)
  {
    exists i :: 0 <= i < |history| && history[i].seq_ == k
  }

  predicate AllCarried(f: Filter, history: seq<Arrival>)
  {
    && (forall k :: k in f.seqs ==> Carried(history, k))
    && (forall k :: k in f.queue ==> Carried(history, k))
  }

  lemma {:induction false} PurgeCarried(f: Filter, now: nat, rto: nat, history: seq<Arrival>)
    requires AllCarried(f, history)
    ensures AllCarried(Purge(f, now, rto), history)
    decreases |f.queue|
  {
    if f.queue != [] {
      var k := f.queue[0];
      assert k in f.queue;
      var seqs := Touch(f.seqs, k);
      if now > seqs[k] + rto {
        PurgeCarried(Filter(seqs - {k}, f.queue[1..]), now, rto, history);
      }
    }
  }

  lemma {:induction false} AfterCarried(history: seq<Arrival>)
    ensures AllCarried(After(history), history)
  {
    if history != [] {
      var h, a := history[..|history| - 1], history[|history| - 1];
      AfterCarried(h);
      PurgeCarried(After(h), a.now, a.rto, h);
      assert history[|history| - 1].seq_ == a.seq_;
      forall k | Carried(h, k) ensures Carried(history, k) {
        var i :| 0 <= i < |h| && h[i].seq_ == k;
        assert history[i].seq_ == k;
      }
    }
  }

  /** Only a Sequence that an earlier packet carried is reported as a duplicate. */
  lemma NoFalseDuplicate(history: seq<Arrival>, i: nat)
    requires i < |history| && IsDuplicate(history, i)
    ensures exists j :: 0 <= j < i && history[j].seq_ == history[i].seq_
  {
    AfterCarried(history[..i]);
    var j :| 0 <= j < i && history[..i][j].seq_ == history[i].seq_;
    assert history[j].seq_ == history[i].seq_;
  }

  // ---------------------------------------------------------------- no missed duplicate

  /** The oldest queue entry is in the map, so the epoch never gets into the map to stay. */
  predicate FrontKnown(f: Filter)
  {
    f.queue != [] ==> f.queue[0] in f.seqs
  }

  /** Purging leaves an unexpired entry alone and invents none. */
  lemma {:induction false} PurgeKeeps(f: Filter, now: nat, rto: nat, s: nat)
    requires FrontKnown(f) || now > rto
    ensures var g := Purge(f, now, rto);
            && FrontKnown(g)
            && (s in f.seqs && now <= f.seqs[s] + rto ==> s in g.seqs && g.seqs[s] == f.seqs[s])
            && (s !in f.seqs ==> s !in g.seqs)
    decreases |f.queue|
  {
    if f.queue != [] {
      var k := f.queue[0];
      var seqs := Touch(f.seqs, k);
      if now > seqs[k] + rto {
        PurgeKeeps(Filter(seqs - {k}, f.queue[1..]), now, rto, s);
      }
    }
  }

  lemma {:induction false} AfterFrontKnown(history: seq<Arrival>)
    ensures FrontKnown(After(history))
  {
    if history != [] {
      var h, a := history[..|history| - 1], history[|history| - 1];
      AfterFrontKnown(h);
      PurgeKeeps(After(h), a.now, a.rto, a.seq_);
    }
  }

  lemma AfterLast(history: seq<Arrival>, n: nat)
    requires 0 < n <= |history|
    ensures After(history[..n]) == Arrive(After(history[..n - 1]), history[n - 1])
  {
    assert history[..n][..n - 1] == history[..n - 1];
  }

  /** An entry that has not expired survives an arrival; a new one gets the time of its arrival. */
  lemma ArriveKeeps(f: Filter, a: Arrival, s: nat)
    requires FrontKnown(f)
    ensures s in f.seqs && a.now <= f.seqs[s] + a.rto ==> s in Arrive(f, a).seqs && Arrive(f, a).seqs[s] == f.seqs[s]
    ensures a.seq_ !in f.seqs ==> a.seq_ in Arrive(f, a).seqs && Arrive(f, a).seqs[a.seq_] == a.now
  {
    PurgeKeeps(f, a.now, a.rto, s);
    PurgeKeeps(f, a.now, a.rto, a.seq_);
  }

  /** From its acceptance at arrival `i` on, a Sequence stays in the map with its time, as long as the
      clock has not passed that time by `r` and no RTO is below `r`. */
  lemma {:induction false} StaysKnown(history: seq<Arrival>, i: nat, n: nat, r: nat)
    requires ClockMonotone(history) && i < n <= |history| && !IsDuplicate(history, i)
    requires forall k :: i < k < n ==> r <= history[k].rto && history[k].now <= history[i].now + r
    ensures var s := history[i].seq_;
            s in After(history[..n]).seqs && After(history[..n]).seqs[s] == history[i].now
  {
    AfterLast(history, n);
    AfterFrontKnown(history[..n - 1]);
    ArriveKeeps(After(history[..n - 1]), history[n - 1], history[i].seq_);
    if n - 1 > i {
      StaysKnown(history, i, n - 1, r);
    }
  }

  /** A Sequence accepted as new at arrival `i` is reported as a duplicate at every arrival within `r`,
      for any `r` up to the RTOs in between. */
  lemma NoMissedDuplicate(history: seq<Arrival>, i: nat, j: nat, r: nat)
    requires ClockMonotone(history) && i < j < |history| && !IsDuplicate(history, i)
    requires history[j].seq_ == history[i].seq_ && history[j].now <= history[i].now + r
    requires forall k :: i < k < j ==> r <= history[k].rto
    ensures IsDuplicate(history, j)
  {
    assert forall k :: i < k < j ==> history[k].now <= history[j].now;
    StaysKnown(history, i, j, r);
  }

  // ---------------------------------------------------------------- when a Sequence is forgotten

  function Sequences(history: seq<Arrival>): (r: seq<nat>)
    ensures |r| == |history|
  {
    seq(|history|, i requires 0 <= i < |history| => history[i].seq_)
  }

  /** Sequence `s` was carried by an arrival from position `q` on. */
  predicate CarriedFrom(history: seq<Arrival>, q: nat, s: nat)
  {
    exists p :: q <= p < |history| && history[p].seq_ == s
  }

  /** Sequence `s` was carried by an arrival at time `t`. */
  predicate CarriedAt(history: seq<Arrival>, s: nat, t: nat)
  {
    exists m :: 0 <= m < |history| && history[m].seq_ == s && history[m].now == t
  }

  /** The queue holds the arrivals from position `q` on. Every Sequence in the map is in the queue, with the
      time of some arrival of it. */
  predicate Queued(f: Filter, history: seq<Arrival>, q: nat)
  {
    && q <= |history| && f.queue == Sequences(history)[q..]
    && forall s :: s in f.seqs ==> CarriedFrom(history, q, s) && CarriedAt(history, s, f.seqs[s])
  }

  /** What the purge leaves, and why it stops. */
  lemma {:induction false} PurgeQueued(f: Filter, history: seq<Arrival>, q: nat, now: nat, rto: nat) returns (q': nat)
    requires Queued(f, history, q) && (FrontKnown(f) || now > rto)
    ensures q <= q' <= |history| && Queued(Purge(f, now, rto), history, q')
    ensures q' < |history| ==> exists t: nat :: CarriedAt(history, history[q'].seq_, t) && now <= t + rto
    decreases |history| - q
  {
    q' := q;
    if q < |history| {
      var k := f.queue[0];
      assert k == history[q].seq_;
      if now > Touch(f.seqs, k)[k] + rto {
        PopQueued(f, history, q);
        q' := PurgeQueued(Filter(Touch(f.seqs, k) - {k}, f.queue[1..]), history, q + 1, now, rto);
      } else {
        assert k in f.seqs && CarriedAt(history, k, f.seqs[k]);
      }
    }
  }

  lemma PopQueued(f: Filter, history: seq<Arrival>, q: nat)
    requires Queued(f, history, q) && q < |history|
    ensures var k := f.queue[0]; Queued(Filter(Touch(f.seqs, k) - {k}, f.queue[1..]), history, q + 1)
  {
    var k := f.queue[0];
    forall s | s in f.seqs && s != k ensures CarriedFrom(history, q + 1, s) {
      assert CarriedFrom(history, q, s);
      var p :| q <= p < |history| && history[p].seq_ == s;
      assert p != q;
    }
  }

  lemma RecordQueued(f: Filter, history: seq<Arrival>, q: nat, a: Arrival)
    requires Queued(f, history, q)
    ensures Queued(Record(f, a), history + [a], q)
  {
    var h := history + [a];
    assert Sequences(h)[q..] == Sequences(history)[q..] + [a.seq_];
    assert h[|history|] == a;
    forall s | s in f.seqs ensures CarriedFrom(h, q, s) && CarriedAt(h, s, f.seqs[s]) {
      assert CarriedFrom(history, q, s) && CarriedAt(history, s, f.seqs[s]);
      var p :| q <= p < |history| && history[p].seq_ == s;
      var m :| 0 <= m < |history| && history[m].seq_ == s && history[m].now == f.seqs[s];
      assert h[p] == history[p] && h[m] == history[m];
    }
  }

  /** Position of the oldest arrival that is still in the queue. */
  function Oldest(history: seq<Arrival>): int
  {
    |history| - |After(history).queue|
  }

  /** One arrival moves the start of the queue on, and stops at an arrival whose Sequence came within the RTO. */
  lemma OldestMoves(history: seq<Arrival>, a: Arrival)
    requires 0 <= Oldest(history) && Queued(After(history), history, Oldest(history))
    ensures Oldest(history) <= Oldest(history + [a]) &&
            Queued(After(history + [a]), history + [a], Oldest(history + [a]))
    ensures var q := Oldest(history + [a]);
            q < |history| ==> exists t: nat :: CarriedAt(history, history[q].seq_, t) && a.now <= t + a.rto
  {
    AfterFrontKnown(history);
    assert (history + [a])[..|history|] == history;
    var q := PurgeQueued(After(history), history, Oldest(history), a.now, a.rto);
    RecordQueued(Purge(After(history), a.now, a.rto), history, q, a);
    assert Oldest(history + [a]) == q;
  }

  lemma {:induction false} AfterQueued(history: seq<Arrival>)
    ensures 0 <= Oldest(history) && Queued(After(history), history, Oldest(history))
  {
    if history != [] {
      var h, a := history[..|history| - 1], history[|history| - 1];
      assert history == h + [a];
      AfterQueued(h);
      OldestMoves(h, a);
    }
  }

  lemma OldestStep(history: seq<Arrival>, n: nat)
    requires n < |history|
    ensures Oldest(history[..n]) <= Oldest(history[..n + 1])
  {
    AfterQueued(history[..n]);
    OldestMoves(history[..n], history[n]);
    assert history[..n + 1] == history[..n] + [history[n]];
  }

  lemma {:induction false} OldestGrows(history: seq<Arrival>, m: nat, n: nat)
    requires m <= n <= |history|
    ensures Oldest(history[..m]) <= Oldest(history[..n])
    decreases n
  {
    if m < n {
      OldestGrows(history, m, n - 1);
      OldestStep(history, n - 1);
    }
  }

  /** At arrival `l`, every earlier arrival of a Sequence that had been seen by arrival `i` lies more than the
      RTO back. */
  predicate AllStale(history: seq<Arrival>, i: nat, l: nat)
    requires i < l < |history|
  {
    forall k, m :: 0 <= k <= i && 0 <= m < l && history[m].seq_ == history[k].seq_ ==>
      history[m].now + history[l].rto < history[l].now
  }

  /** Sequence of arrival `i` does not come again before arrival `j`. */
  predicate LastBefore(history: seq<Arrival>, i: nat, j: nat)
    requires i < |history| && j <= |history|
  {
    forall k :: i < k < j ==> history[k].seq_ != history[i].seq_
  }

  lemma StaleNotCarried(history: seq<Arrival>, i: nat, l: nat, k: nat)
    requires i < l < |history| && AllStale(history, i, l) && k <= i
    ensures forall t: nat :: CarriedAt(history[..l], history[k].seq_, t) ==> history[l].now > t + history[l].rto
  {
  }

  /** A purge that finds everything seen by arrival `i` stale goes past it. */
  lemma StaleIsPurged(history: seq<Arrival>, i: nat, l: nat)
    requires i < l < |history| && AllStale(history, i, l)
    ensures Oldest(history[..l + 1]) > i
  {
    var h := history[..l];
    AfterQueued(h);
    OldestMoves(h, history[l]);
    assert history[..l + 1] == h + [history[l]];
    var q := Oldest(history[..l + 1]);
    if q <= i {
      StaleNotCarried(history, i, l, q);
      assert false;
    }
  }

  /** The bound for any traffic: a Sequence that last came at arrival `i` is accepted as new again at arrival `j`
      if some arrival in between found everything seen by then stale. Sequences that come again meanwhile can
      put this off, because their repeated entries stand before it in the queue. */
  lemma Forgotten(history: seq<Arrival>, i: nat, l: nat, j: nat)
    requires i < l < j < |history| && history[j].seq_ == history[i].seq_ && LastBefore(history, i, j)
    requires AllStale(history, i, l)
    ensures !IsDuplicate(history, j)
  {
    StaleIsPurged(history, i, l);
    OldestGrows(history, l + 1, j);
    AfterQueued(history[..j]);
    assert !CarriedFrom(history[..j], Oldest(history[..j]), history[j].seq_);
  }

  /** No Sequence seen by arrival `i` comes again before arrival `j`. */
  predicate NoRepeats(history: seq<Arrival>, i: nat, j: nat)
    requires i < |history| && j <= |history|
  {
    forall k, m :: 0 <= k <= i < m < j ==> history[m].seq_ != history[k].seq_
  }

  /** The exact rule without such repeats: a Sequence accepted as new at arrival `i` is reported at its next
      arrival `j` if and only if the arrival just before `j` came by the end of its RTO. The purge that would
      forget it runs after the check, so the time of `j` itself does not matter. */
  lemma ReportedExactly(history: seq<Arrival>, i: nat, j: nat, r: nat)
    requires ClockMonotone(history) && i < j < |history| && !IsDuplicate(history, i)
    requires history[j].seq_ == history[i].seq_ && NoRepeats(history, i, j)
    requires forall k :: i < k < j ==> history[k].rto == r
    ensures IsDuplicate(history, j) <==> history[j - 1].now <= history[i].now + r
  {
    if history[j - 1].now <= history[i].now + r {
      assert forall k :: i < k < j ==> history[k].now <= history[j - 1].now;
      StaysKnown(history, i, j, r);
    } else {
      forall k, m | 0 <= k <= i && 0 <= m < j - 1 && history[m].seq_ == history[k].seq_
        ensures history[m].now + r < history[j - 1].now
      {
        assert m <= i;
      }
      Forgotten(history, i, j - 1, j);
    }
  }

  // ---------------------------------------------------------------- two late reports

  const RTO: nat := 10

  /** Sequence 5 comes at time 0 and again at time 100, with nothing in between. */
  const LATE := [Arrival(5, 0, RTO), Arrival(5, 100, RTO)]

  /** The check runs before the purge: the repeat is reported long after the RTO. */
  lemma LateDuplicate()
    ensures ClockMonotone(LATE) && LATE[1].now > LATE[0].now + RTO && IsDuplicate(LATE, 1)
  {
    assert !IsDuplicate(LATE, 0);
    ReportedExactly(LATE, 0, 1, RTO);
  }

  /** Sequence 1 comes three times. Its second arrival leaves an entry in the queue; when the first entry is
      purged and Sequence 1 comes anew, that entry has its new time and stands before Sequence 3. */
  predicate Blocking(h: seq<Arrival>)
  {
    && |h| == 8
    && h[0] == Arrival(1, 0, RTO) && h[1] == Arrival(2, 4, RTO)
    && h[2] == Arrival(1, 5, RTO) && h[3] == Arrival(3, 6, RTO)
    && h[4] == Arrival(1, 11, RTO) && h[5] == Arrival(4, 15, RTO)
    && h[6] == Arrival(5, 17, RTO) && h[7] == Arrival(3, 17, RTO)
  }

  lemma PurgeStops(f: Filter, now: nat, rto: nat)
    requires f.queue != [] && f.queue[0] in f.seqs && now <= f.seqs[f.queue[0]] + rto
    ensures Purge(f, now, rto) == f
  {
  }

  lemma PurgePops(f: Filter, now: nat, rto: nat)
    requires f.queue != [] && f.queue[0] in f.seqs && now > f.seqs[f.queue[0]] + rto
    ensures Purge(f, now, rto) == Purge(Filter(f.seqs - {f.queue[0]}, f.queue[1..]), now, rto)
  {
  }

  lemma BlockingClock(h: seq<Arrival>)
    requires Blocking(h)
    ensures ClockMonotone(h)
  {
  }

  lemma NextAfter(history: seq<Arrival>, n: nat, f: Filter, g: Filter)
    requires n < |history| && After(history[..n]) == f && Arrive(f, history[n]) == g
    ensures After(history[..n + 1]) == g
  {
    AfterLast(history, n + 1);
  }

  lemma ArriveQuietly(f: Filter, a: Arrival)
    requires f.queue != [] && f.queue[0] in f.seqs && a.now <= f.seqs[f.queue[0]] + a.rto
    ensures Arrive(f, a) == Record(f, a)
  {
  }

  lemma BlockedTwo(h: seq<Arrival>)
    requires Blocking(h)
    ensures After(h[..2]) == Filter(map[1 := 0, 2 := 4], [1, 2])
  {
    var f := Filter(map[1 := 0], [1]);
    NextAfter(h, 0, Filter(map[], []), f);
    ArriveQuietly(f, h[1]);
    NextAfter(h, 1, f, Filter(map[1 := 0, 2 := 4], [1, 2]));
  }

  /** The first four arrivals purge nothing. */
  lemma BlockedStart(h: seq<Arrival>)
    requires Blocking(h)
    ensures After(h[..3]) == Filter(map[1 := 0, 2 := 4], [1, 2, 1])
    ensures After(h[..4]) == Filter(map[1 := 0, 2 := 4, 3 := 6], [1, 2, 1, 3])
  {
    var f, g := Filter(map[1 := 0, 2 := 4], [1, 2]), Filter(map[1 := 0, 2 := 4], [1, 2, 1]);
    BlockedTwo(h);
    ArriveQuietly(f, h[2]);
    NextAfter(h, 2, f, g);
    ArriveQuietly(g, h[3]);
    NextAfter(h, 3, g, Filter(map[1 := 0, 2 := 4, 3 := 6], [1, 2, 1, 3]));
  }

  /** At time 11 Sequence 1 is purged and recorded anew. */
  lemma Renewal()
    ensures Arrive(Filter(map[1 := 0, 2 := 4, 3 := 6], [1, 2, 1, 3]), Arrival(1, 11, RTO))
            == Filter(map[2 := 4, 3 := 6, 1 := 11], [2, 1, 3, 1])
  {
    var f, g := Filter(map[1 := 0, 2 := 4, 3 := 6], [1, 2, 1, 3]), Filter(map[2 := 4, 3 := 6], [2, 1, 3]);
    PurgePops(f, 11, RTO);
    assert f.seqs - {1} == g.seqs && f.queue[1..] == g.queue;
    PurgeStops(g, 11, RTO);
  }

  lemma BlockedRenewal(h: seq<Arrival>)
    requires Blocking(h)
    ensures After(h[..5]) == Filter(map[2 := 4, 3 := 6, 1 := 11], [2, 1, 3, 1])
  {
    BlockedStart(h);
    Renewal();
    NextAfter(h, 4, After(h[..4]), Filter(map[2 := 4, 3 := 6, 1 := 11], [2, 1, 3, 1]));
  }

  /** From then on its old second entry is in the way. */
  lemma BlockedEnd(h: seq<Arrival>)
    requires Blocking(h)
    ensures 3 in After(h[..7]).seqs
  {
    BlockedRenewal(h);
    var f, g := Filter(map[2 := 4, 3 := 6, 1 := 11], [2, 1, 3, 1]), Filter(map[3 := 6, 1 := 11], [1, 3, 1]);
    PurgePops(f, 15, RTO);
    assert Filter(f.seqs - {2}, f.queue[1..]) == g;
    PurgeStops(g, 15, RTO);
    var f6 := Filter(map[3 := 6, 1 := 11, 4 := 15], [1, 3, 1, 4]);
    NextAfter(h, 5, f, f6);
    PurgeStops(f6, 17, RTO);
    NextAfter(h, 6, f6, Record(f6, h[6]));
  }

  /** The queue is blocked: Sequence 3 is still known after a purge at time 17, although its RTO ended at 16, and
      is reported, against the exact rule for traffic without repeats. */
  lemma BlockedQueue(h: seq<Arrival>)
    requires Blocking(h)
    ensures ClockMonotone(h) && h[7].seq_ == h[3].seq_ && !IsDuplicate(h, 3)
    ensures h[6].now > h[3].now + RTO && IsDuplicate(h, 7)
  {
    BlockingClock(h);
    BlockedStart(h);
    BlockedEnd(h);
  }
}
