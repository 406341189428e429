/** The in-memory data of `TempsFile` (Averages.py) as values: for every device a
    series of readings keyed by timestamp, and the pure operations over it — the
    24-hour window, recording a reading, the rounded average, and the part of the
    store that survives a save. */
module Readings {
  import opened Wrappers
  import opened Dicts

  /** Timestamps count microseconds, the resolution of Python's `datetime`. */
  const Hour: int := 60 * 60 * 1_000_000
  const Day: int := 24 * Hour

  /** One device's readings: timestamp -> temperature. */
  type Series = Dict<int, real>
  /** `TempsFile.temps`: device -> series. */
  type Store = Dict<string, Series>

  ghost predicate StoreValid(s: Store) {
    s.Valid() && forall d :: d in s.items ==> s.items[d].Valid()
  }

  /** Assigning a device a valid series keeps the store valid. */
  lemma PutSeries(s: Store, device: string, w: Series)
    requires StoreValid(s) && w.Valid()
    ensures StoreValid(s.Put(device, w))
  {
  }

  /** `sub` is `s` with some of its elements left out and the others kept in
      their order. */
  predicate Subsequence<T(==)>(sub: seq<T>, s: seq<T>)
    decreases |s|
  {
    if sub == [] then true
    else if s == [] then false
    else (sub[0] == s[0] && Subsequence(sub[1..], s[1..])) || Subsequence(sub, s[1..])
  }

  /** Every element of a subsequence is an element of the sequence. */
  lemma {:induction false} SubsequenceIn<T>(sub: seq<T>, s: seq<T>, k: nat)
    requires Subsequence(sub, s) && k < |sub|
    ensures exists m :: 0 <= m < |s| && s[m] == sub[k]
    decreases |s|
  {
    if sub[0] == s[0] && Subsequence(sub[1..], s[1..]) {
      if k == 0 {
        assert s[0] == sub[k];
      } else {
        SubsequenceIn(sub[1..], s[1..], k - 1);
        var m :| 0 <= m < |s| - 1 && s[1..][m] == sub[1..][k - 1];
        assert s[m + 1] == sub[k];
      }
    } else {
      SubsequenceIn(sub, s[1..], k);
      var m :| 0 <= m < |s| - 1 && s[1..][m] == sub[k];
      assert s[m + 1] == sub[k];
    }
  }

  /** A subsequence keeps order: two elements of a subsequence appear in the
      sequence at positions in the same order. */
  lemma {:induction false} SubsequenceOrder<T>(sub: seq<T>, s: seq<T>, i: nat, j: nat)
    requires Subsequence(sub, s) && i < j < |sub|
    ensures exists i', j' :: 0 <= i' < j' < |s| && s[i'] == sub[i] && s[j'] == sub[j]
    decreases |s|
  {
    if sub[0] == s[0] && Subsequence(sub[1..], s[1..]) {
      if i == 0 {
        SubsequenceIn(sub[1..], s[1..], j - 1);
        var m :| 0 <= m < |s| - 1 && s[1..][m] == sub[1..][j - 1];
        assert s[0] == sub[i] && s[m + 1] == sub[j];
      } else {
        SubsequenceOrder(sub[1..], s[1..], i - 1, j - 1);
        var a, b :| 0 <= a < b < |s| - 1 && s[1..][a] == sub[1..][i - 1] && s[1..][b] == sub[1..][j - 1];
        assert s[a + 1] == sub[i] && s[b + 1] == sub[j];
      }
    } else {
      SubsequenceOrder(sub, s[1..], i, j);
      var a, b :| 0 <= a < b < |s| - 1 && s[1..][a] == sub[i] && s[1..][b] == sub[j];
      assert s[a + 1] == sub[i] && s[b + 1] == sub[j];
    }
  }

  /** The timestamps of `ks` that lie in the window ending at `now`, in order. */
  function RecentKeys(ks: seq<int>, now: int): (r: seq<int>)
    ensures forall t :: t in r <==> t in ks && t >= now - Day
    ensures Subsequence(r, ks)
    ensures (forall i, j :: 0 <= i < j < |ks| ==> ks[i] != ks[j]) ==>
              forall i, j :: 0 <= i < j < |r| ==> r[i] != r[j]
    decreases |ks|
  {
    if ks == [] then []
    else
      var rest := RecentKeys(ks[1..], now);
      if ks[0] >= now - Day then
        assert (forall i, j :: 0 <= i < j < |ks| ==> ks[i] != ks[j]) ==> ks[0] !in ks[1..];
        assert ([ks[0]] + rest)[1..] == rest;
        [ks[0]] + rest
      else rest
  }

  /** The readings of `w` stamped no earlier than 24 hours before `now` (the
      bound is inclusive; later timestamps are kept too), in their original order. */
  function Recent(w: Series, now: int): (r: Series)
    requires w.Valid()
    ensures r.Valid()
    ensures forall t :: t in r.items <==> t in w.items && t >= now - Day
    ensures forall t :: t in r.items ==> r.items[t] == w.items[t]
  {
    var ks := RecentKeys(w.keys, now);
    Dict(ks, map t | t in ks :: w.items[t])
  }

  /** `filter_last_24_hours(device)`: the device's in-window readings, or `{}` for
      a device the store does not know.  The result is a sub-map of the device's
      series holding exactly its readings with `t >= now - 24h`. */
  function FilterLast24Hours(s: Store, device: string, now: int): (r: Series)
    requires StoreValid(s)
    ensures r.Valid()
    ensures device !in s.items ==> r.keys == [] && r.items == map[]
    ensures forall t :: t in r.items <==> device in s.items && t in s.items[device].items && t >= now - Day
    ensures forall t :: t in r.items ==> r.items[t] == s.items[device].items[t]
  {
    if device !in s.items then Empty() else Recent(s.items[device], now)
  }

  /** The store after `add_temp(device, value)` at time `now`: the device gets an
      empty series first if it is new, and its reading at `now` is set. */
  function Record(s: Store, device: string, now: int, value: real): (r: Store)
    requires StoreValid(s)
    ensures StoreValid(r)
    ensures device in r.items && now in r.items[device].items && r.items[device].items[now] == value
    ensures r.keys == if device in s.items then s.keys else s.keys + [device]
    ensures forall d :: d != device ==> (d in r.items <==> d in s.items)
    ensures forall d :: d != device && d in s.items ==> r.items[d] == s.items[d]
    ensures forall t :: t != now ==>
      (t in r.items[device].items <==> device in s.items && t in s.items[device].items)
    ensures forall t :: t != now && t in r.items[device].items ==>
      r.items[device].items[t] == s.items[device].items[t]
  {
    var w := if device in s.items then s.items[device] else Empty();
    s.Put(device, w.Put(now, value))
  }

  /** Giving an unknown device an empty series first, then adding the reading to
      the device's series, records the reading. */
  lemma RecordInTwoSteps(s: Store, device: string, now: int, value: real)
    requires StoreValid(s)
    ensures var s' := if device in s.items then s else s.Put(device, Empty());
      && StoreValid(s') && device in s'.items
      && s'.Put(device, s'.items[device].Put(now, value)) == Record(s, device, now, value)
  {
    if device !in s.items {
      PutTwice(s, device, Empty(), Empty<int, real>().Put(now, value));
    }
  }

  /** The sum of the readings of `w` at the timestamps `ks`. */
  function Total(w: Series, ks: seq<int>): real
    requires forall i :: 0 <= i < |ks| ==> ks[i] in w.items
    decreases |ks|
  {
    if ks == [] then 0.0 else w.items[ks[0]] + Total(w, ks[1..])
  }

  /** The arithmetic mean of the readings of a non-empty series: the number that,
      taken once per reading, adds up to their total. */
  function Mean(w: Series): (r: real)
    requires w.Valid() && w.keys != []
    ensures r * |w.keys| as real == Total(w, w.keys)
  {
    assert forall i :: 0 <= i < |w.keys| ==> w.keys[i] in w.items;
    Total(w, w.keys) / |w.keys| as real
  }

  /** `r` is a whole number of hundredths nearest to `x`; of two equally near,
      it is the even one. */
  ghost predicate NearestHundredth(r: real, x: real) {
    && (r * 100.0).Floor as real == r * 100.0
    && -0.005 <= r - x <= 0.005
    && (-0.005 < r - x < 0.005 || (r * 100.0).Floor % 2 == 0)
  }

  /** At most one number is the nearest hundredth of `x`. */
  lemma NearestHundredthUnique(a: real, b: real, x: real)
    requires NearestHundredth(a, x) && NearestHundredth(b, x)
    ensures a == b
  {
    var m, n := (a * 100.0).Floor, (b * 100.0).Floor;
    assert -1.0 <= (m - n) as real <= 1.0;
  }

  /** `round(x, 2)`: the multiple of 0.01 nearest to `x`, a tie going to the even
      hundredth. */
  function Round2(x: real): (r: real)
    ensures (r * 100.0).Floor as real == r * 100.0
    ensures -0.005 <= r - x <= 0.005
    ensures -0.005 < r - x < 0.005 || (r * 100.0).Floor % 2 == 0
  {
    var y := x * 100.0;
    var n := y.Floor;
    var f := y - n as real;
    var m := if f < 0.5 then n else if f > 0.5 then n + 1 else if n % 2 == 0 then n else n + 1;
    m as real / 100.0
  }

  /** `get_average(device)`: `0.0` for a device the store does not know, `None`
      for a known device with no reading in the window, and otherwise the mean of
      the in-window readings rounded to two decimals. */
  function Average(s: Store, device: string, now: int): (r: Option<real>)
    requires StoreValid(s)
    ensures device !in s.items ==> r == Some(0.0)
    ensures device in s.items ==> (r.None? <==> FilterLast24Hours(s, device, now).items == map[])
    ensures device in s.items && r.Some? ==>
      var w := FilterLast24Hours(s, device, now);
      w.keys != [] && NearestHundredth(r.value, Mean(w))
  {
    if device !in s.items then Some(0.0)
    else
      var w := FilterLast24Hours(s, device, now);
      if w.keys == [] then None else Some(Round2(Mean(w)))
  }

  /** The devices of `ks` that have at least one reading in the window, in order. */
  function Survivors(s: Store, ks: seq<string>, now: int): (r: seq<string>)
    requires StoreValid(s)
    ensures forall d :: d in r <==> d in ks && d in s.items && Recent(s.items[d], now).keys != []
    ensures Subsequence(r, ks)
    ensures (forall i, j :: 0 <= i < j < |ks| ==> ks[i] != ks[j]) ==>
              forall i, j :: 0 <= i < j < |r| ==> r[i] != r[j]
    decreases |ks|
  {
    if ks == [] then []
    else
      var rest := Survivors(s, ks[1..], now);
      if ks[0] in s.items && Recent(s.items[ks[0]], now).keys != [] then
        assert (forall i, j :: 0 <= i < j < |ks| ==> ks[i] != ks[j]) ==> ks[0] !in ks[1..];
        assert ([ks[0]] + rest)[1..] == rest;
        [ks[0]] + rest
      else rest
  }

  lemma SurvivorsStep(s: Store, ks: seq<string>, now: int)
    requires StoreValid(s) && ks != []
    ensures Survivors(s, ks, now)
         == (if ks[0] in s.items && Recent(s.items[ks[0]], now).keys != [] then [ks[0]] else [])
            + Survivors(s, ks[1..], now)
  {
  }

  /** What `save_temps` keeps at time `now`: every device with an in-window
      reading, in store order, holding exactly its in-window readings. */
  function Pruned(s: Store, now: int): (r: Store)
    requires StoreValid(s)
    ensures StoreValid(r)
    ensures forall d :: d in r.items <==> d in s.items && FilterLast24Hours(s, d, now).keys != []
    ensures forall d :: d in r.items ==> r.items[d] == FilterLast24Hours(s, d, now)
  {
    var ks := Survivors(s, s.keys, now);
    Dict(ks, map d | d in ks :: Recent(s.items[d], now))
  }

  // Properties of the store operations

  /** A reading just recorded at `now` lies in the window ending at `now`, so the
      device's average at that moment is a number, never `None`. */
  lemma RecordedIsAveraged(s: Store, device: string, now: int, value: real)
    requires StoreValid(s)
    ensures Average(Record(s, device, now, value), device, now).Some?
  {
    var r := Record(s, device, now, value);
    assert now in FilterLast24Hours(r, device, now).items;
  }

  /** Recording a reading for one device leaves every other device's average,
      at any time, as it was. */
  lemma RecordKeepsOtherAverages(s: Store, device: string, at: int, value: real, other: string, now: int)
    requires StoreValid(s) && other != device
    ensures Average(Record(s, device, at, value), other, now) == Average(s, other, now)
  {
    var r := Record(s, device, at, value);
    if other in s.items {
      assert r.items[other] == s.items[other];
    }
  }

  lemma {:induction false} TotalWithin(w: Series, ks: seq<int>, lo: real, hi: real)
    requires forall i :: 0 <= i < |ks| ==> ks[i] in w.items && lo <= w.items[ks[i]] <= hi
    ensures |ks| as real * lo <= Total(w, ks) <= |ks| as real * hi
    decreases |ks|
  {
    if ks != [] {
      TotalWithin(w, ks[1..], lo, hi);
    }
  }

  /** When every in-window reading lies between `lo` and `hi`, the average is a
      number that lies between them too, up to the rounding to hundredths. */
  lemma AverageWithin(s: Store, device: string, now: int, lo: real, hi: real)
    requires StoreValid(s) && device in s.items
    requires FilterLast24Hours(s, device, now).keys != []
    requires forall t :: t in FilterLast24Hours(s, device, now).items ==>
               lo <= FilterLast24Hours(s, device, now).items[t] <= hi
    ensures Average(s, device, now).Some?
    ensures lo - 0.005 <= Average(s, device, now).value <= hi + 0.005
  {
    var w := FilterLast24Hours(s, device, now);
    SeriesMeanWithin(w, lo, hi);
    assert -0.005 <= Round2(Mean(w)) - Mean(w) <= 0.005;
  }

  /** The readings at `ks`, all between `lo` and `hi`, sum to at most `|ks|`
      times `hi` and at least `|ks|` times `lo`, so their mean lies between them. */
  lemma TotalMeanWithin(w: Series, ks: seq<int>, lo: real, hi: real)
    requires ks != []
    requires forall i :: 0 <= i < |ks| ==> ks[i] in w.items && lo <= w.items[ks[i]] <= hi
    ensures lo <= Total(w, ks) / |ks| as real <= hi
  {
    TotalWithin(w, ks, lo, hi);
    MeanWithin(Total(w, ks), |ks| as real, lo, hi);
  }

  /** The mean of readings that all lie between `lo` and `hi` lies between them. */
  lemma SeriesMeanWithin(w: Series, lo: real, hi: real)
    requires w.Valid() && w.keys != []
    requires forall t :: t in w.items ==> lo <= w.items[t] <= hi
    ensures lo <= Mean(w) <= hi
  {
    var ks := w.keys;
    assert forall i :: 0 <= i < |ks| ==> ks[i] in w.items && lo <= w.items[ks[i]] <= hi;
    TotalMeanWithin(w, ks, lo, hi);
  }

  lemma MeanWithin(total: real, n: real, lo: real, hi: real)
    requires n > 0.0 && n * lo <= total <= n * hi
    ensures lo <= total / n <= hi
  {
    assert (total / n) * n == total;
  }

  /** A device whose every reading has left the window averages to `None` while
      it is in memory, but once the store is cut down to what a save keeps (as a
      restart that reloads the file does) the device is unknown and averages to
      `0.0`. */
  lemma ExpiredDeviceReadsZeroAfterPruning(s: Store, device: string, now: int)
    requires StoreValid(s) && device in s.items
    requires FilterLast24Hours(s, device, now).keys == []
    ensures Average(s, device, now) == None
    ensures Average(Pruned(s, now), device, now) == Some(0.0)
  {
  }

  lemma {:induction false} RecentKeysTwice(ks: seq<int>, now: int)
    ensures RecentKeys(RecentKeys(ks, now), now) == RecentKeys(ks, now)
    decreases |ks|
  {
    if ks != [] {
      RecentKeysTwice(ks[1..], now);
      if ks[0] >= now - Day {
        assert ([ks[0]] + RecentKeys(ks[1..], now))[1..] == RecentKeys(ks[1..], now);
      }
    }
  }

  /** Applying the window twice keeps what applying it once keeps, in the same order. */
  lemma RecentTwice(w: Series, now: int)
    requires w.Valid()
    ensures Recent(Recent(w, now), now) == Recent(w, now)
  {
    RecentKeysTwice(w.keys, now);
  }

  /** A device that survives pruning keeps its average. */
  lemma PrunedKeepsAverage(s: Store, device: string, now: int)
    requires StoreValid(s) && device in s.items && FilterLast24Hours(s, device, now).keys != []
    ensures Average(Pruned(s, now), device, now) == Average(s, device, now)
  {
    RecentTwice(s.items[device], now);
  }

  /** Devices that all have an in-window reading all survive, in order. */
  lemma {:induction false} SurvivorsAll(s: Store, ks: seq<string>, now: int)
    requires StoreValid(s)
    requires forall i :: 0 <= i < |ks| ==> ks[i] in s.items && Recent(s.items[ks[i]], now).keys != []
    ensures Survivors(s, ks, now) == ks
    decreases |ks|
  {
    if ks != [] {
      SurvivorsAll(s, ks[1..], now);
    }
  }

  /** Pruning what pruning kept changes nothing: a second save at the same time
      keeps the same devices, in the same order, with the same readings. */
  lemma PrunedTwice(s: Store, now: int)
    requires StoreValid(s)
    ensures Pruned(Pruned(s, now), now) == Pruned(s, now)
  {
    var p := Pruned(s, now);
    forall d | d in p.items
      ensures Recent(p.items[d], now) == p.items[d]
    {
      RecentTwice(s.items[d], now);
    }
    SurvivorsAll(p, p.keys, now);
    assert Pruned(p, now).items == p.items;
  }

  /** Device "A" holds exactly a reading of 20.0 at `t0` and one of 22.0 an hour
      later, in that order. */
  ghost predicate HoldsTwoReadings(s: Store, t0: int)
  {
    && StoreValid(s) && "A" in s.items
    && s.items["A"].keys == [t0, t0 + Hour]
    && s.items["A"].items == map[t0 := 20.0, t0 + Hour := 22.0]
  }

  /** The store after `add_temp("A", 20.0)` at `t0` and `add_temp("A", 22.0)` an
      hour later, starting from an empty store. */
  function TwoReadings(t0: int): (s: Store)
    ensures HoldsTwoReadings(s, t0)
  {
    Record(Record(Empty(), "A", t0, 20.0), "A", t0 + Hour, 22.0)
  }

  /** The window over two timestamps keeps each one that is recent enough. */
  lemma RecentKeysOfTwo(a: int, b: int, now: int)
    ensures RecentKeys([a, b], now)
         == (if a >= now - Day then [a] else []) + (if b >= now - Day then [b] else [])
  {
    assert [a, b][1..] == [b] && [b][1..] == [];
    assert RecentKeys([b], now) == (if b >= now - Day then [b] else []) + RecentKeys([], now);
  }

  /** The window over the two readings at `now`: both, the later one only, or
      neither, as they fall at or after `now - 24h`. */
  lemma TwoReadingsWindow(s: Store, t0: int, now: int)
    requires HoldsTwoReadings(s, t0)
    ensures FilterLast24Hours(s, "A", now).keys
         == if t0 >= now - Day then [t0, t0 + Hour]
            else if t0 + Hour >= now - Day then [t0 + Hour] else []
  {
    assert FilterLast24Hours(s, "A", now).keys == RecentKeys(s.items["A"].keys, now);
    RecentKeysOfTwo(t0, t0 + Hour, now);
  }

  /** A value already on a hundredth is left alone by `Round2`. */
  lemma Round2Hundredths(n: int)
    ensures Round2(n as real / 100.0) == n as real / 100.0
  {
    assert n as real / 100.0 * 100.0 == n as real;
  }

  /** The sum over two timestamps. */
  lemma TotalOfTwo(w: Series, a: int, b: int)
    requires a in w.items && b in w.items
    ensures Total(w, [a, b]) == w.items[a] + w.items[b]
  {
    assert [a, b][1..] == [b] && [b][1..] == [];
    assert Total(w, [b]) == w.items[b] + Total(w, []);
  }

  /** An hour after the second reading, the average is the mean of the two. */
  lemma TwoReadingsAverage(s: Store, t0: int)
    requires HoldsTwoReadings(s, t0)
    ensures Average(s, "A", t0 + 2 * Hour) == Some(21.0)
  {
    var w := FilterLast24Hours(s, "A", t0 + 2 * Hour);
    TwoReadingsWindow(s, t0, t0 + 2 * Hour);
    TotalOfTwo(w, t0, t0 + Hour);
    assert Mean(w) == 21.0;
    Round2Hundredths(2100);
  }

  /** 25 hours after the first reading, the second sits exactly on the inclusive
      bound and alone makes the average. */
  lemma TwoReadingsBoundary(s: Store, t0: int)
    requires HoldsTwoReadings(s, t0)
    ensures Average(s, "A", t0 + 25 * Hour) == Some(22.0)
  {
    var w := FilterLast24Hours(s, "A", t0 + 25 * Hour);
    TwoReadingsWindow(s, t0, t0 + 25 * Hour);
    assert [t0 + Hour][1..] == [];
    assert Total(w, [t0 + Hour]) == w.items[t0 + Hour] + Total(w, []);
    assert Mean(w) == 22.0;
    Round2Hundredths(2200);
  }

  /** An hour later still, both readings have left the window: `None`. */
  lemma TwoReadingsExpired(s: Store, t0: int)
    requires HoldsTwoReadings(s, t0)
    ensures Average(s, "A", t0 + 26 * Hour) == None
  {
    TwoReadingsWindow(s, t0, t0 + 26 * Hour);
  }
}
