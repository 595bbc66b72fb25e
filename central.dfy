/** The central agent's leaderboard: it collects one report per learner,
    and once AGENTS_NUMBER reports are in it sorts them by step count with
    a stable sort and names the first as the best performance. */
module Central {
  import opened Entities

  /** `QLUtils.AGENTS_NUMBER`: how many reports the central agent waits for. */
  const AgentsNumber: int := 4

  /** The step count of each report, looked up by report. */
  type Keys<T> = map<T, int>

  predicate HasKeys<T>(s: seq<T>, key: Keys<T>) {
    forall k | 0 <= k < |s| :: s[k] in key
  }

  /** Non-decreasing by step count. */
  predicate Sorted<T>(s: seq<T>, key: Keys<T>)
    requires HasKeys(s, key)
  {
    forall i, j | 0 <= i < j < |s| :: key[s[i]] <= key[s[j]]
  }

  /** One insertion step of the stable sort: `x` goes after every element
      of `t`, from the end, that does not compare greater than it. */
  function Insert<T>(t: seq<T>, x: T, key: Keys<T>): (r: seq<T>)
    requires HasKeys(t, key) && x in key
    ensures |r| == |t| + 1 && HasKeys(r, key)
    ensures multiset(r) == multiset(t) + multiset{x}
    decreases |t|
  {
    if |t| == 0 || key[t[|t| - 1]] <= key[x] then t + [x]
    else
      var last := t[|t| - 1];
      assert t == t[..|t| - 1] + [last];
      Insert(t[..|t| - 1], x, key) + [last]
  }

  /** `Collections.sort(entities)`: a stable sort by `compareTo`, that is,
      by step count, equal counts keeping their order. */
  function StableSort<T>(s: seq<T>, key: Keys<T>): (r: seq<T>)
    requires HasKeys(s, key)
    ensures |r| == |s| && HasKeys(r, key)
    ensures multiset(r) == multiset(s)
    decreases |s|
  {
    if |s| == 0 then []
    else
      assert s == s[..|s| - 1] + [s[|s| - 1]];
      Insert(StableSort(s[..|s| - 1], key), s[|s| - 1], key)
  }

  /** The reports of `s` with step count v, in the order of `s`. */
  function Filter<T>(s: seq<T>, key: Keys<T>, v: int): (r: seq<T>)
    requires HasKeys(s, key)
    ensures |r| <= |s|
    decreases |s|
  {
    if |s| == 0 then []
    else Filter(s[..|s| - 1], key, v) + (if key[s[|s| - 1]] == v then [s[|s| - 1]] else [])
  }

  lemma {:induction false} FilterAppend<T>(a: seq<T>, b: seq<T>, key: Keys<T>, v: int)
    requires HasKeys(a, key) && HasKeys(b, key)
    ensures HasKeys(a + b, key)
    ensures Filter(a + b, key, v) == Filter(a, key, v) + Filter(b, key, v)
    decreases |b|
  {
    assert HasKeys(a + b, key);
    if |b| == 0 {
      assert a + b == a;
    } else {
      var b' := b[..|b| - 1];
      assert (a + b)[..|a + b| - 1] == a + b';
      FilterAppend(a, b', key, v);
    }
  }

  /** Inserting into a sorted sequence keeps it sorted. */
  lemma {:induction false} InsertSorted<T>(t: seq<T>, x: T, key: Keys<T>)
    requires HasKeys(t, key) && x in key && Sorted(t, key)
    ensures Sorted(Insert(t, x, key), key)
    decreases |t|
  {
    if |t| > 0 && key[t[|t| - 1]] > key[x] {
      var t' := t[..|t| - 1];
      var last := t[|t| - 1];
      assert Sorted(t', key);
      InsertSorted(t', x, key);
      var r' := Insert(t', x, key);
      forall k | 0 <= k < |r'|
        ensures key[r'[k]] <= key[last]
      {
        assert r'[k] in multiset(t') + multiset{x};
        if r'[k] != x {
          var m :| 0 <= m < |t'| && t'[m] == r'[k];
        }
      }
    }
  }

  /** Inserting x adds it to the end of the reports with its step count
      and leaves the relative order of all the others as it was. */
  lemma {:induction false} InsertFilter<T>(t: seq<T>, x: T, key: Keys<T>, v: int)
    requires HasKeys(t, key) && x in key
    ensures Filter(Insert(t, x, key), key, v) == Filter(t, key, v) + (if key[x] == v then [x] else [])
    decreases |t|
  {
    if |t| == 0 || key[t[|t| - 1]] <= key[x] {
      FilterSnoc(t, x, key, v);
    } else {
      var t' := t[..|t| - 1];
      var last := t[|t| - 1];
      assert t' + [last] == t;
      var mid := Insert(t', x, key);
      var fx := if key[x] == v then [x] else [];
      var fl := if key[last] == v then [last] else [];
      InsertFilter(t', x, key, v);
      FilterSnoc(mid, last, key, v);
      FilterSnoc(t', last, key, v);
      assert fx == [] || fl == [];
      calc {
        Filter(Insert(t, x, key), key, v);
        Filter(mid + [last], key, v);
        Filter(t', key, v) + fx + fl;
        { if fx == [] { assert fx + fl == fl + fx; } else { assert fl == []; } }
        Filter(t', key, v) + fl + fx;
        Filter(t, key, v) + fx;
      }
    }
  }

  /** Appending one report to a sequence appends it to its Filter when it
      has the step count v. */
  lemma FilterSnoc<T>(s: seq<T>, y: T, key: Keys<T>, v: int)
    requires HasKeys(s, key) && y in key
    ensures HasKeys(s + [y], key)
    ensures Filter(s + [y], key, v) == Filter(s, key, v) + (if key[y] == v then [y] else [])
  {
    assert (s + [y])[..|s|] == s;
  }

  /** The sort's result is ordered by step count. */
  lemma {:induction false} StableSortSorted<T>(s: seq<T>, key: Keys<T>)
    requires HasKeys(s, key)
    ensures Sorted(StableSort(s, key), key)
    decreases |s|
  {
    if |s| > 0 {
      StableSortSorted(s[..|s| - 1], key);
      InsertSorted(StableSort(s[..|s| - 1], key), s[|s| - 1], key);
    }
  }

  /** The sort is stable: for each step count, the reports with that count
      come out in the order they came in. */
  lemma {:induction false} StableSortStable<T>(s: seq<T>, key: Keys<T>, v: int)
    requires HasKeys(s, key)
    ensures Filter(StableSort(s, key), key, v) == Filter(s, key, v)
    decreases |s|
  {
    if |s| > 0 {
      var s' := s[..|s| - 1];
      StableSortStable(s', key, v);
      InsertFilter(StableSort(s', key), s[|s| - 1], key, v);
    }
  }

  lemma {:induction false} FilterNone<T>(s: seq<T>, key: Keys<T>, v: int)
    requires HasKeys(s, key)
    requires forall j | 0 <= j < |s| :: key[s[j]] != v
    ensures Filter(s, key, v) == []
    decreases |s|
  {
    if |s| > 0 {
      FilterNone(s[..|s| - 1], key, v);
    }
  }

  /** The first report with step count v is the head of its Filter. */
  lemma {:induction false} FilterHead<T>(s: seq<T>, key: Keys<T>, v: int, k: int)
    requires HasKeys(s, key) && 0 <= k < |s| && key[s[k]] == v
    requires forall j | 0 <= j < k :: key[s[j]] != v
    ensures |Filter(s, key, v)| > 0 && Filter(s, key, v)[0] == s[k]
  {
    assert s == s[..k] + s[k..];
    FilterAppend(s[..k], s[k..], key, v);
    FilterNone(s[..k], key, v);
    assert s[k..] == [s[k]] + s[k + 1..];
    FilterAppend([s[k]], s[k + 1..], key, v);
    assert [s[k]][..0] == [];
  }

  /** Some report has step count v, so there is a first one. */
  lemma {:induction false} FirstWith<T>(s: seq<T>, key: Keys<T>, v: int, k: int) returns (f: int)
    requires HasKeys(s, key) && 0 <= k < |s| && key[s[k]] == v
    ensures 0 <= f <= k && key[s[f]] == v
    ensures forall j | 0 <= j < f :: key[s[j]] != v
    decreases k
  {
    if exists j | 0 <= j < k :: key[s[j]] == v {
      var j :| 0 <= j < k && key[s[j]] == v;
      f := FirstWith(s, key, v, j);
    } else {
      f := k;
    }
  }

  /** The winner, the head of the sorted reports, is one of the reports,
      has the least step count of them all, and is the EARLIEST received
      report with that count: every report before it took more steps. */
  lemma WinnerIsFirstMinimum<T>(s: seq<T>, key: Keys<T>)
    requires HasKeys(s, key) && |s| > 0
    ensures var w := StableSort(s, key)[0];
      && w in s
      && (forall e | e in s :: key[w] <= key[e])
      && exists k | 0 <= k < |s| :: s[k] == w && forall j | 0 <= j < k :: key[s[j]] > key[w]
  {
    var r := StableSort(s, key);
    var w := r[0];
    StableSortSorted(s, key);
    assert w in multiset(s);
    forall e | e in s
      ensures key[w] <= key[e]
    {
      assert e in multiset(r);
      var m :| 0 <= m < |r| && r[m] == e;
    }
    var some :| 0 <= some < |s| && s[some] == w;
    var k := FirstWith(s, key, key[w], some);
    FilterHead(s, key, key[w], k);
    FilterHead(r, key, key[w], 0);
    StableSortStable(s, key, key[w]);
    assert s[k] == w;
    forall j | 0 <= j < k
      ensures key[s[j]] > key[w]
    {
      assert s[j] in s;
    }
  }

  /** The step count of every entity of `s`, as `compareTo` reads it. */
  function StepsOf(s: seq<QLEntity>): (key: Keys<QLEntity>)
    reads s
    ensures HasKeys(s, key)
    ensures forall k | 0 <= k < |s| :: key[s[k]] == s[k].stepsNb
  {
    map e | e in s :: e.stepsNb
  }

  /** The sorted reports, read through `compareTo`: ordered by step count,
      headed by a report with the least count that no earlier report ties. */
  lemma LeaderboardOrder(s: seq<QLEntity>)
    requires |s| > 0
    ensures var r := StableSort(s, StepsOf(s));
      && (forall i, j | 0 <= i < j < |r| :: r[i].stepsNb <= r[j].stepsNb)
      && (forall e | e in s :: r[0].stepsNb <= e.stepsNb)
      && exists k | 0 <= k < |s| :: s[k] == r[0] && forall j | 0 <= j < k :: s[j].stepsNb > r[0].stepsNb
  {
    var key := StepsOf(s);
    var r := StableSort(s, key);
    WinnerIsFirstMinimum(s, key);
    StableSortSorted(s, key);
    forall i, j | 0 <= i < j < |r|
      ensures r[i].stepsNb <= r[j].stepsNb
    {
      assert r[i] in multiset(s) && r[j] in multiset(s);
      assert key[r[i]] <= key[r[j]];
    }
  }

  /** What `done()` reports: nothing yet, or the best agent's name and
      step count. */
  datatype Outcome = Pending | Best(name: string, stepsNb: int)

  /** The central agent and its one behaviour; `it` counts the reports
      the behaviour has received. */
  class CentralAgent {
    var entities: seq<QLEntity>
    var it: int

    ghost predicate Valid()
      reads this
    {
      |entities| == it
    }

    constructor ()
      ensures Valid() && entities == [] && it == 0
    {
      entities := [];
      it := 0;
    }

    /** `action()`: one report, already received and parsed, becomes a new
        entity at the end of the list, and the counter moves on by one. */
    method Action(sender: string, steps: int)
      requires Valid()
      modifies this
      ensures Valid() && it == old(it) + 1
      ensures |entities| == |old(entities)| + 1 && entities[..|old(entities)|] == old(entities)
      ensures fresh(entities[|old(entities)|])
      ensures entities[|old(entities)|].name == sender && entities[|old(entities)|].stepsNb == steps
    {
      var e := new QLEntity(sender, steps);
      entities := entities + [e];
      it := it + 1;
    }

    /** `done()`: before AGENTS_NUMBER reports it answers false and changes
        nothing; at AGENTS_NUMBER it sorts the list in place and reports the
        head, the earliest received of the reports with the least steps. */
    method Done() returns (done: bool, best: Outcome)
      requires Valid()
      modifies this`entities
      ensures Valid()
      ensures done <==> it == AgentsNumber
      ensures !done ==> entities == old(entities) && best == Pending
      ensures done ==> entities == StableSort(old(entities), StepsOf(old(entities)))
      ensures done ==> forall i, j | 0 <= i < j < |entities| :: entities[i].stepsNb <= entities[j].stepsNb
      ensures done ==> best == Best(entities[0].name, entities[0].stepsNb)
      ensures done ==> forall e | e in old(entities) :: best.stepsNb <= e.stepsNb
      ensures done ==> exists k | 0 <= k < |old(entities)| ::
        old(entities)[k] == entities[0] &&
        forall j | 0 <= j < k :: old(entities)[j].stepsNb > best.stepsNb
    {
      if it == AgentsNumber {
        var received := entities;
        LeaderboardOrder(received);
        var sorted := StableSort(received, StepsOf(received));
        entities := sorted;
        assert StepsOf(received) == old(StepsOf(entities));
        var head := sorted[0];
        done, best := true, Best(head.GetName(), head.GetStepsNb());
        return;
      }
      return false, Pending;
    }
  }

  /** The leaderboard on four reports, two of them tied on the least
      count: the central agent finishes, and the tie goes to the one that
      arrived first. */
  method TieGoesToEarliest() returns (done: bool, best: Outcome)
    ensures done && best == Best("B", 9)
  {
    var central := new CentralAgent();
    central.Action("A", 12);
    central.Action("B", 9);
    central.Action("C", 9);
    central.Action("D", 15);
    done, best := central.Done();
  }
}
