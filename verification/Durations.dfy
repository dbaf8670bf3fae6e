/** How long an issue spent in each status, from its changelog. Times are whole microseconds. */
module Durations {
  import opened Domain

  datatype ChangeItem = ChangeItem(field: string, from: string, to: string)

  datatype History = History(created: int, items: seq<ChangeItem>)

  datatype Transition = Transition(at: int, from: string, to: string)

  // ---- the transitions of a changelog, in order of time ----

  function StatusItems(at: int, items: seq<ChangeItem>): seq<Transition> {
    if items == [] then []
    else
      var i := items[|items| - 1];
      StatusItems(at, items[..|items| - 1]) + (if i.field == "status" then [Transition(at, i.from, i.to)] else [])
  }

  function Collected(histories: seq<History>): seq<Transition> {
    if histories == [] then []
    else
      var h := histories[|histories| - 1];
      Collected(histories[..|histories| - 1]) + StatusItems(h.created, h.items)
  }

  lemma {:induction false} StatusItemsSplit(at: int, xs: seq<ChangeItem>, ys: seq<ChangeItem>)
    ensures StatusItems(at, xs + ys) == StatusItems(at, xs) + StatusItems(at, ys)
  {
    if ys == [] {
      assert xs + ys == xs;
    } else {
      StatusItemsSplit(at, xs, ys[..|ys| - 1]);
      assert (xs + ys)[..|xs + ys| - 1] == xs + ys[..|ys| - 1];
    }
  }

  /** The rows of a changelog are read one after the other. */
  lemma {:induction false} RowsInOrder(a: seq<History>, b: seq<History>)
    ensures Collected(a + b) == Collected(a) + Collected(b)
  {
    if b == [] {
      assert a + b == a;
    } else {
      RowsInOrder(a, b[..|b| - 1]);
      assert (a + b)[..|a + b| - 1] == a + b[..|b| - 1];
    }
  }

  /** The items of a row are read one after the other. */
  lemma ItemsInOrder(at: int, xs: seq<ChangeItem>, ys: seq<ChangeItem>)
    ensures Collected([History(at, xs + ys)]) == Collected([History(at, xs)]) + Collected([History(at, ys)])
  {
    StatusItemsSplit(at, xs, ys);
    OneRow(History(at, xs + ys));
    OneRow(History(at, xs));
    OneRow(History(at, ys));
  }

  lemma OneRow(h: History)
    ensures Collected([h]) == StatusItems(h.created, h.items)
  {
    assert [h][..0] == [];
  }

  /** A row with one item is a transition at the row's time exactly if the item's field is the status. */
  lemma OneItem(at: int, field: string, from: string, to: string)
    ensures Collected([History(at, [ChangeItem(field, from, to)])]) ==
      if field == "status" then [Transition(at, from, to)] else []
    ensures Collected([History(at, [])]) == [] && Collected([]) == []
  {
    var h := History(at, [ChangeItem(field, from, to)]);
    OneRow(h);
    OneRow(History(at, []));
    assert h.items[..0] == [];
  }

  ghost predicate NoStatus(h: History) {
    forall i :: i in h.items ==> i.field != "status"
  }

  /** There are no transitions exactly if no item of any row is about the status. */
  lemma {:induction false} NoneCollectedIff(histories: seq<History>)
    ensures Collected(histories) == [] <==>
      forall h :: h in histories ==> NoStatus(h)
  {
    if histories != [] {
      var init, last := histories[..|histories| - 1], histories[|histories| - 1];
      NoneCollectedIff(init);
      NoStatusIff(last.created, last.items);
      assert histories == init + [last];
      assert last in histories && forall h :: h in histories <==> h in init || h == last;
    }
  }

  lemma {:induction false} NoStatusIff(at: int, items: seq<ChangeItem>)
    ensures StatusItems(at, items) == [] <==> forall i :: i in items ==> i.field != "status"
  {
    if items != [] {
      NoStatusIff(at, items[..|items| - 1]);
      assert items == items[..|items| - 1] + [items[|items| - 1]];
    }
  }

  /** Puts a later changelog row behind every row that is not after it. */
  function Insert(ts: seq<Transition>, t: Transition): (r: seq<Transition>)
    ensures |r| == |ts| + 1
    ensures multiset(r) == multiset(ts) + multiset{t}
  {
    if ts == [] || ts[|ts| - 1].at <= t.at then ts + [t]
    else
      assert ts == ts[..|ts| - 1] + [ts[|ts| - 1]];
      Insert(ts[..|ts| - 1], t) + [ts[|ts| - 1]]
  }

  /** The stable sort by time. */
  function SortedByTime(ts: seq<Transition>): (r: seq<Transition>)
    ensures |r| == |ts|
    ensures multiset(r) == multiset(ts)
  {
    if ts == [] then []
    else
      assert ts == ts[..|ts| - 1] + [ts[|ts| - 1]];
      Insert(SortedByTime(ts[..|ts| - 1]), ts[|ts| - 1])
  }

  ghost predicate Sorted(ts: seq<Transition>) {
    forall i, j :: 0 <= i < j < |ts| ==> ts[i].at <= ts[j].at
  }

  lemma {:induction false} InsertSorts(ts: seq<Transition>, t: Transition)
    requires Sorted(ts)
    ensures Sorted(Insert(ts, t))
    ensures forall k :: 0 <= k < |ts| + 1 ==> Insert(ts, t)[k] == t || Insert(ts, t)[k] in ts
  {
    if ts != [] && ts[|ts| - 1].at > t.at {
      InsertSorts(ts[..|ts| - 1], t);
    }
  }

  lemma {:induction false} SortSorts(ts: seq<Transition>)
    ensures Sorted(SortedByTime(ts))
  {
    if ts != [] {
      SortSorts(ts[..|ts| - 1]);
      InsertSorts(SortedByTime(ts[..|ts| - 1]), ts[|ts| - 1]);
    }
  }

  /** The transitions at one moment, in list order. */
  function AtTime(ts: seq<Transition>, t: int): seq<Transition> {
    if ts == [] then []
    else AtTime(ts[..|ts| - 1], t) + (if ts[|ts| - 1].at == t then [ts[|ts| - 1]] else [])
  }

  lemma AtTimeOfLast(ts: seq<Transition>, x: Transition, t: int)
    ensures AtTime(ts + [x], t) == AtTime(ts, t) + if x.at == t then [x] else []
  {
    assert (ts + [x])[..|ts + [x]| - 1] == ts;
  }

  lemma {:induction false} InsertIsStable(ts: seq<Transition>, x: Transition, t: int)
    ensures AtTime(Insert(ts, x), t) == AtTime(ts, t) + if x.at == t then [x] else []
  {
    if ts == [] || ts[|ts| - 1].at <= x.at {
      AtTimeOfLast(ts, x, t);
    } else {
      var init, last := ts[..|ts| - 1], ts[|ts| - 1];
      InsertIsStable(init, x, t);
      AtTimeOfLast(Insert(init, x), last, t);
    }
  }

  /** Transitions with the same timestamp keep their changelog order. */
  lemma {:induction false} SortIsStable(ts: seq<Transition>, t: int)
    ensures AtTime(SortedByTime(ts), t) == AtTime(ts, t)
  {
    if ts != [] {
      SortIsStable(ts[..|ts| - 1], t);
      InsertIsStable(SortedByTime(ts[..|ts| - 1]), ts[|ts| - 1], t);
    }
  }

  // ---- adding up ----

  function Get(m: map<string, int>, s: string): int {
    if s in m then m[s] else 0
  }

  /** Only positive spans are booked. */
  function Add(m: map<string, int>, s: string, span: int): map<string, int> {
    if span > 0 then m[s := Get(m, s) + span] else m
  }

  /** The end of the k-th span: the next transition, or the resolution date or the present. */
  function EndOf(ts: seq<Transition>, end: int, k: nat): int
    requires k < |ts|
  {
    if k + 1 < |ts| then ts[k + 1].at else end
  }

  /** The booking after the time before the first transition and the first k spans. */
  function Booked(ts: seq<Transition>, created: int, end: int, k: nat): map<string, int>
    requires 0 < |ts| && k <= |ts|
  {
    if k == 0 then Add(map[], ts[0].from, ts[0].at - created)
    else Add(Booked(ts, created, end, k - 1), ts[k - 1].to, EndOf(ts, end, k - 1) - ts[k - 1].at)
  }

  function StatusDurations(created: int, ts: seq<Transition>, current: string, end: int, now: int): map<string, int> {
    if ts == [] then map[current := now - created] else Booked(ts, created, end, |ts|)
  }

  method ComputeStatusDurations(created: Option<int>, histories: seq<History>, current: string,
                                resolution: Option<int>, now: int)
    returns (durations: map<string, int>)
    ensures durations ==
      if created.None? then map[]
      else StatusDurations(created.value, SortedByTime(Collected(histories)), current,
                           if resolution.Some? then resolution.value else now, now)
    ensures created.None? ==> durations == map[]
    ensures created.Some? && (forall h, i :: h in histories && i in h.items ==> i.field != "status") ==>
      durations == map[current := now - created.value]
  {
    NoneCollectedIff(histories);
    if created.None? {
      return map[];
    }
    var transitions := CollectTransitions(histories);
    transitions := SortedByTime(transitions);
    if transitions == [] {
      return map[current := now - created.value];
    }
    durations := BookSpans(transitions, created.value, if resolution.Some? then resolution.value else now);
  }

  /** The status changes of a changelog, in the order of its rows. */
  method CollectTransitions(histories: seq<History>) returns (transitions: seq<Transition>)
    ensures transitions == Collected(histories)
  {
    transitions := [];
    for h := 0 to |histories|
      invariant transitions == Collected(histories[..h])
    {
      var ts, items := histories[h].created, histories[h].items;
      assert histories[..h + 1][..h] == histories[..h];
      for k := 0 to |items|
        invariant transitions == Collected(histories[..h]) + StatusItems(ts, items[..k])
      {
        assert items[..k + 1][..k] == items[..k];
        if items[k].field == "status" {
          transitions := transitions + [Transition(ts, items[k].from, items[k].to)];
        }
      }
      assert items[..|items|] == items;
    }
    assert histories[..|histories|] == histories;
  }

  /** Books the time before the first transition, then one span per transition. */
  method BookSpans(transitions: seq<Transition>, created: int, end: int) returns (durations: map<string, int>)
    requires transitions != []
    ensures durations == Booked(transitions, created, end, |transitions|)
  {
    durations := map[];
    var first := transitions[0].from;
    var initial := transitions[0].at - created;
    if initial > 0 {
      durations := durations[first := Get(durations, first) + initial];
    }
    for i := 0 to |transitions|
      invariant durations == Booked(transitions, created, end, i)
    {
      var status := transitions[i].to;
      var until := if i + 1 < |transitions| then transitions[i + 1].at else end;
      var spent := until - transitions[i].at;
      if spent > 0 {
        durations := durations[status := Get(durations, status) + spent];
      }
    }
  }

  // ---- what the durations mean ----

  /** The last transition that is not after an instant. */
  function LastAt(ts: seq<Transition>, t: int): (k: int)
    ensures -1 <= k < |ts|
    ensures k >= 0 ==> ts[k].at <= t
    ensures forall j :: k < j < |ts| ==> ts[j].at > t
  {
    if ts == [] then -1
    else if ts[|ts| - 1].at <= t then |ts| - 1
    else LastAt(ts[..|ts| - 1], t)
  }

  /** The status an issue has at an instant. */
  function Current(ts: seq<Transition>, t: int): string
    requires 0 < |ts|
  {
    var k := LastAt(ts, t);
    if k < 0 then ts[0].from else ts[k].to
  }

  function Min(x: int, y: int): int { if x < y then x else y }

  /** The instants before a bound, since the issue was created or first changed, at which it had a status. */
  ghost function Instants(ts: seq<Transition>, created: int, bound: int, s: string): set<int>
    requires 0 < |ts|
  {
    set t: int | Min(created, ts[0].at) <= t < bound && Current(ts, t) == s
  }

  ghost predicate Within(lo: int, t: int, hi: int) {
    lo <= t < hi
  }

  ghost function Span(lo: int, hi: int): set<int> {
    set t: int | lo <= t < hi && Within(lo, t, hi)
  }

  lemma {:induction false} SpanSize(lo: int, hi: int)
    ensures |Span(lo, hi)| == Max(0, hi - lo)
    decreases hi - lo
  {
    if lo < hi {
      SpanSize(lo, hi - 1);
      assert Span(lo, hi) == Span(lo, hi - 1) + {hi - 1};
    } else {
      assert Span(lo, hi) == {};
    }
  }

  /** The instants accounted for after k spans. */
  function Bound(ts: seq<Transition>, end: int, k: nat): int
    requires 0 < |ts| && k <= |ts|
  {
    if k < |ts| then ts[k].at else Max(ts[k - 1].at, end)
  }

  lemma CurrentBefore(ts: seq<Transition>, t: int)
    requires 0 < |ts| && Sorted(ts) && t < ts[0].at
    ensures Current(ts, t) == ts[0].from
  {
    assert forall j :: 0 <= j < |ts| ==> ts[0].at <= ts[j].at;
  }

  lemma CurrentDuring(ts: seq<Transition>, k: nat, t: int)
    requires k < |ts| && Sorted(ts) && ts[k].at <= t && (k + 1 < |ts| ==> t < ts[k + 1].at)
    ensures Current(ts, t) == ts[k].to
  {
    var j := LastAt(ts, t);
    assert k + 1 < |ts| ==> forall m :: k < m < |ts| ==> ts[k + 1].at <= ts[m].at;
  }

  /** A span at which one status is current adds its length to that status and nothing to others. */
  lemma AddedSpan(ts: seq<Transition>, created: int, lo: int, hi: int, now: string, s: string)
    requires 0 < |ts| && Min(created, ts[0].at) <= lo
    requires forall t :: lo <= t < hi ==> Current(ts, t) == now
    ensures |Instants(ts, created, Max(lo, hi), s)| == |Instants(ts, created, lo, s)| + if s == now then Max(0, hi - lo) else 0
  {
    SpanSize(lo, hi);
    if lo < hi {
      if s == now {
        assert Instants(ts, created, hi, s) == Instants(ts, created, lo, s) + Span(lo, hi);
        assert Instants(ts, created, lo, s) !! Span(lo, hi);
      } else {
        assert Instants(ts, created, hi, s) == Instants(ts, created, lo, s);
      }
    }
  }

  /** After every step each status has been booked exactly the instants at which it was current. */
  lemma {:induction false} BookedIsMeasure(ts: seq<Transition>, created: int, end: int, k: nat, s: string)
    requires 0 < |ts| && k <= |ts| && Sorted(ts)
    ensures Get(Booked(ts, created, end, k), s) == |Instants(ts, created, Bound(ts, end, k), s)|
    ensures s in Booked(ts, created, end, k) <==> Instants(ts, created, Bound(ts, end, k), s) != {}
  {
    if k == 0 {
      var lo := Min(created, ts[0].at);
      forall t | lo <= t < ts[0].at {
        CurrentBefore(ts, t);
      }
      assert Instants(ts, created, lo, s) == {};
      AddedSpan(ts, created, lo, ts[0].at, ts[0].from, s);
    } else {
      BookedIsMeasure(ts, created, end, k - 1, s);
      var lo, hi := ts[k - 1].at, EndOf(ts, end, k - 1);
      forall t | lo <= t < hi ensures Current(ts, t) == ts[k - 1].to {
        CurrentDuring(ts, k - 1, t);
      }
      AddedSpan(ts, created, lo, hi, ts[k - 1].to, s);
      assert Bound(ts, end, k) == Max(lo, hi);
    }
  }

  /**
   * For any changelog with a status transition, in whatever order its rows stand, each status is booked exactly
   * the number of instants at which it was current, and is mentioned exactly if there is such an instant.
   */
  lemma DurationIsMeasure(created: int, histories: seq<History>, current: string, end: int, now: int, s: string)
    requires Collected(histories) != []
    ensures var ts := SortedByTime(Collected(histories));
            var spent := Instants(ts, created, Max(ts[|ts| - 1].at, end), s);
            var durations := StatusDurations(created, ts, current, end, now);
            (s in durations <==> spent != {}) && (s in durations ==> durations[s] == |spent|)
  {
    var ts := SortedByTime(Collected(histories));
    SortSorts(Collected(histories));
    BookedIsMeasure(ts, created, end, |ts|, s);
  }

  // ---- the total is conserved ----

  ghost function Total(m: map<string, int>): int {
    if m == map[] then 0
    else
      var s :| s in m;
      m[s] + Total(m - {s})
  }

  /** The total does not depend on the order in which it is added up. */
  lemma {:induction false} TotalWithout(m: map<string, int>, s: string)
    requires s in m
    ensures Total(m) == m[s] + Total(m - {s})
    decreases |m|
  {
    var c :| c in m && Total(m) == m[c] + Total(m - {c});
    if c != s {
      TotalWithout(m - {c}, s);
      TotalWithout(m - {s}, c);
      assert m - {c} - {s} == m - {s} - {c};
    }
  }

  lemma TotalAdd(m: map<string, int>, s: string, span: int)
    ensures Total(Add(m, s, span)) == Total(m) + Max(0, span)
  {
    if span > 0 {
      var next := Add(m, s, span);
      TotalWithout(next, s);
      if s in m {
        TotalWithout(m, s);
        assert next - {s} == m - {s};
      } else {
        assert next - {s} == m;
      }
    }
  }

  lemma {:induction false} TotalBooked(ts: seq<Transition>, created: int, end: int, k: nat)
    requires 0 < |ts| && k <= |ts| && Sorted(ts)
    ensures Total(Booked(ts, created, end, k)) == Max(0, ts[0].at - created) + Bound(ts, end, k) - ts[0].at
  {
    if k == 0 {
      TotalAdd(map[], ts[0].from, ts[0].at - created);
    } else {
      TotalBooked(ts, created, end, k - 1);
      TotalAdd(Booked(ts, created, end, k - 1), ts[k - 1].to, EndOf(ts, end, k - 1) - ts[k - 1].at);
    }
  }

  /** Telescoping: only the first and the last transition remain. */
  lemma SortedTotal(created: int, ts: seq<Transition>, current: string, end: int, now: int)
    requires ts != [] && Sorted(ts)
    ensures Total(StatusDurations(created, ts, current, end, now)) ==
      Max(0, ts[0].at - created) + (ts[|ts| - 1].at - ts[0].at) + Max(0, end - ts[|ts| - 1].at)
  {
    TotalBooked(ts, created, end, |ts|);
  }

  /** All booked time together is the issue's life, and exactly end - created when the dates are in order. */
  lemma {:induction false} TimeIsConserved(created: int, histories: seq<History>, current: string, end: int, now: int)
    requires Collected(histories) != []
    ensures var ts := SortedByTime(Collected(histories));
            var t0, tn, total := ts[0].at, ts[|ts| - 1].at, Total(StatusDurations(created, ts, current, end, now));
            && total == Max(0, t0 - created) + (tn - t0) + Max(0, end - tn)
            && (total == end - created <==> created <= t0 && tn <= end)
  {
    var ts := SortedByTime(Collected(histories));
    SortSorts(Collected(histories));
    SortedTotal(created, ts, current, end, now);
    assert ts[0].at <= ts[|ts| - 1].at;
  }

  // ---- the order of the changelog does not matter ----

  ghost predicate DistinctTimes(ts: seq<Transition>) {
    forall i, j :: 0 <= i < j < |ts| ==> ts[i].at != ts[j].at
  }

  /** The earliest transition comes first in every sorted list of the same transitions. */
  lemma SameHead(a: seq<Transition>, b: seq<Transition>)
    requires a != [] && b != []
    requires Sorted(a) && Sorted(b) && DistinctTimes(a) && multiset(a) == multiset(b)
    ensures a[0] == b[0]
  {
    assert a[0] in multiset(b) && b[0] in multiset(a);
    var j :| 0 <= j < |b| && b[j] == a[0];
    var i :| 0 <= i < |a| && a[i] == b[0];
    assert b[0].at <= b[j].at && a[0].at <= a[i].at;
  }

  lemma TailBag(a: seq<Transition>)
    requires a != []
    ensures multiset(a[1..]) == multiset(a) - multiset{a[0]}
  {
    assert a == [a[0]] + a[1..];
  }

  /** Two sorted lists of the same transitions with distinct times are the same list. */
  lemma {:induction false} SortedUnique(a: seq<Transition>, b: seq<Transition>)
    requires Sorted(a) && Sorted(b) && DistinctTimes(a) && multiset(a) == multiset(b)
    ensures a == b
    decreases |a|
  {
    assert |a| == |multiset(a)| == |multiset(b)| == |b|;
    if a != [] {
      SameHead(a, b);
      TailBag(a);
      TailBag(b);
      SortedUnique(a[1..], b[1..]);
      assert a == [a[0]] + a[1..] && b == [b[0]] + b[1..];
    }
  }

  /** With distinct timestamps the durations depend only on which transitions there are. */
  lemma OrderDoesNotMatter(created: int, histories: seq<History>, other: seq<History>, current: string, end: int, now: int)
    requires DistinctTimes(SortedByTime(Collected(histories)))
    requires multiset(Collected(histories)) == multiset(Collected(other))
    ensures StatusDurations(created, SortedByTime(Collected(histories)), current, end, now)
         == StatusDurations(created, SortedByTime(Collected(other)), current, end, now)
  {
    SortSorts(Collected(histories));
    SortSorts(Collected(other));
    SortedUnique(SortedByTime(Collected(histories)), SortedByTime(Collected(other)));
  }
}
