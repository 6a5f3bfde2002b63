/** `04_common/03/mars_mission_computer.py`: the mission computer keeps the
    sensor readings of the last five minutes and averages them per sensor. */
module MissionComputer {
  import opened Wrappers
  import opened Seqs

  /** One reading: each sensor name to its value, `None` for a sensor that
      gave none. */
  type SensorData = map<string, Option<real>>

  /** A history entry `{'timestamp': ..., 'data': ...}`. The data is a map
      value, so the entry cannot change when the caller's map does later. */
  datatype Entry = Entry(timestamp: real, data: SensorData)

  /** The keys of `env_values`, in insertion order. */
  const EnvKeys: seq<string> := [
    "mars_base_internal_temperature",
    "mars_base_external_temperature",
    "mars_base_internal_humidity",
    "mars_base_external_illuminance",
    "mars_base_internal_co2",
    "mars_base_internal_oxygen"
  ]

  const AvgSuffix: string := "_5min_avg"

  /** An entry still inside the averaging window at instant `now`. */
  function InWindow(now: real, interval: real): Entry -> bool {
    (e: Entry) => now - e.timestamp <= interval
  }

  /** The values recorded for `key`, in entry order, skipping the entries
      that lack the key or hold `None` for it. */
  function PresentValues(history: seq<Entry>, key: string): seq<real> {
    if history == [] then []
    else
      var e := history[|history| - 1];
      PresentValues(history[..|history| - 1], key)
        + (if key in e.data && e.data[key].Some? then [e.data[key].value] else [])
  }

  function Sum(vs: seq<real>): real {
    if vs == [] then 0.0 else Sum(vs[..|vs| - 1]) + vs[|vs| - 1]
  }

  /** `sum(values) / len(values)`. */
  function Mean(vs: seq<real>): real
    requires vs != []
  {
    Sum(vs) / (|vs| as real)
  }

  /** The average reported for one sensor: `None` when it has no value. */
  function AvgOf(history: seq<Entry>, key: string): Option<real> {
    var vs := PresentValues(history, key);
    if vs == [] then None else Some(Mean(vs))
  }

  /** The dictionary `calculate_avg` builds over the keys `keys`. */
  function Averages(history: seq<Entry>, keys: seq<string>): map<string, Option<real>> {
    if keys == [] then map[]
    else
      var k := keys[|keys| - 1];
      Averages(history, keys[..|keys| - 1])[k + AvgSuffix := AvgOf(history, k)]
  }

  class MissionComputer {
    var sensorHistory: seq<Entry>
    var lastAvgTime: real
    const avgInterval: real := 300.0

    /** `__init__`: an empty history, the averaging clock started at `now`. */
    constructor(now: real)
      ensures sensorHistory == [] && lastAvgTime == now
    {
      sensorHistory := [];
      lastAvgTime := now;
    }

    /** `save_sensor_history`: the reading is appended with the current time
        `now`, then the entries older than the window are dropped. */
    method SaveSensorHistory(sensorData: SensorData, now: real)
      modifies this
      ensures sensorHistory
        == Filter(old(sensorHistory) + [Entry(now, sensorData)], InWindow(now, avgInterval))
      ensures lastAvgTime == old(lastAvgTime)
    {
      sensorHistory := sensorHistory + [Entry(now, sensorData)];
      var newSensorHistory: seq<Entry> := [];
      for i := 0 to |sensorHistory|
        invariant newSensorHistory == Filter(sensorHistory[..i], InWindow(now, avgInterval))
      {
        assert sensorHistory[..i + 1][..i] == sensorHistory[..i];
        var entry := sensorHistory[i];
        if now - entry.timestamp <= avgInterval {
          newSensorHistory := newSensorHistory + [entry];
        }
      }
      assert sensorHistory[..|sensorHistory|] == sensorHistory;
      sensorHistory := newSensorHistory;
    }

    /** `calculate_avg`: `None` for an empty history, otherwise one average
        per sensor key. */
    method CalculateAvg() returns (avg: Option<map<string, Option<real>>>)
      ensures avg.None? <==> sensorHistory == []
      ensures avg.Some? ==> avg.value == Averages(sensorHistory, EnvKeys)
    {
      if sensorHistory == [] {
        return None;
      }
      var result := AveragesOver(sensorHistory, EnvKeys);
      avg := Some(result);
    }

    /** `check_5min`: whether a whole window has passed since the last
        average, at instant `now`. */
    predicate CheckFiveMin(now: real)
      reads this
    {
      now - lastAvgTime >= avgInterval
    }

    /** `self.last_avg_time = time.time()` after an average is printed. */
    method RestartAvgClock(now: real)
      modifies this
      ensures lastAvgTime == now && sensorHistory == old(sensorHistory)
    {
      lastAvgTime := now;
    }

    /** Right after the clock restarts, no window has passed; once one has,
        it stays passed. */
    lemma CheckFiveMinClock(now: real, later: real)
      ensures lastAvgTime == now ==> !CheckFiveMin(now)
      ensures CheckFiveMin(now) && now <= later ==> CheckFiveMin(later)
      ensures CheckFiveMin(now) <==> now >= lastAvgTime + 300.0
    {
    }
  }

  /** The outer loop of `calculate_avg`, over the keys `keys`. */
  method AveragesOver(history: seq<Entry>, keys: seq<string>) returns (result: map<string, Option<real>>)
    ensures result == Averages(history, keys)
  {
    result := map[];
    for i := 0 to |keys|
      invariant result == Averages(history, keys[..i])
    {
      assert keys[..i + 1][..i] == keys[..i];
      var key := keys[i];
      var values := CollectValues(history, key);
      if values != [] {
        result := result[key + AvgSuffix := Some(Sum(values) / (|values| as real))];
      } else {
        result := result[key + AvgSuffix := None];
      }
    }
    assert keys[..|keys|] == keys;
  }

  /** The inner loop of `calculate_avg`. */
  method CollectValues(history: seq<Entry>, key: string) returns (values: seq<real>)
    ensures values == PresentValues(history, key)
  {
    values := [];
    for j := 0 to |history|
      invariant values == PresentValues(history[..j], key)
    {
      assert history[..j + 1][..j] == history[..j];
      var entry := history[j];
      if key in entry.data && entry.data[key].Some? {
        values := values + [entry.data[key].value];
      }
    }
    assert history[..|history|] == history;
  }

  /** After pruning, every entry lies in the window, the entries are the
      in-window ones of the old history plus the new one, in their old order,
      and the new entry is the last. */
  lemma PruneKeepsWindow(history: seq<Entry>, data: SensorData, now: real, interval: real)
    requires interval >= 0.0
    ensures var kept := Filter(history + [Entry(now, data)], InWindow(now, interval));
      kept == Filter(history, InWindow(now, interval)) + [Entry(now, data)]
      && (forall i | 0 <= i < |kept| :: now - kept[i].timestamp <= interval)
  {
    var e := Entry(now, data);
    FilterAppend(history, [e], InWindow(now, interval));
    assert [e][..0] == [];
    FilterAll(history + [e], InWindow(now, interval));
  }

  /** The values recorded for `key` are exactly those of the entries that
      hold one. */
  lemma {:induction false} PresentValuesMembers(history: seq<Entry>, key: string)
    ensures forall x ::
      x in PresentValues(history, key) <==> exists e | e in history :: key in e.data && e.data[key] == Some(x)
  {
    if history != [] {
      var init, last := history[..|history| - 1], history[|history| - 1];
      PresentValuesMembers(init, key);
      assert history == init + [last];
      forall x ensures x in PresentValues(history, key)
        <==> exists e | e in history :: key in e.data && e.data[key] == Some(x)
      {
        if x in PresentValues(history, key) && x !in PresentValues(init, key) {
          assert last in history && key in last.data && last.data[key] == Some(x);
        }
        if e :| e in history && key in e.data && e.data[key] == Some(x) {
          if e != last {
            assert e in init;
          }
        }
      }
    }
  }

  /** A sensor has an average exactly when some entry holds a value for it. */
  lemma AvgOfSome(history: seq<Entry>, key: string)
    ensures AvgOf(history, key).Some?
      <==> exists e | e in history :: key in e.data && e.data[key].Some?
  {
    PresentValuesMembers(history, key);
    var vs := PresentValues(history, key);
    if e :| e in history && key in e.data && e.data[key].Some? {
      var x := e.data[key].value;
      assert key in e.data && e.data[key] == Some(x);
      assert x in vs;
    }
    if vs != [] {
      var x := vs[0];
      assert x in PresentValues(history, key);
      assert exists e | e in history :: key in e.data && e.data[key] == Some(x);
    }
  }

  lemma {:induction false} SumBounds(vs: seq<real>, lo: real, hi: real)
    requires forall i | 0 <= i < |vs| :: lo <= vs[i] <= hi
    ensures (|vs| as real) * lo <= Sum(vs) <= (|vs| as real) * hi
  {
    if vs != [] {
      SumBounds(vs[..|vs| - 1], lo, hi);
      assert (|vs| as real) * lo == ((|vs| - 1) as real) * lo + lo;
      assert (|vs| as real) * hi == ((|vs| - 1) as real) * hi + hi;
    }
  }

  /** An average lies between the least and the greatest value averaged. */
  lemma MeanBounds(vs: seq<real>, lo: real, hi: real)
    requires vs != []
    requires forall i | 0 <= i < |vs| :: lo <= vs[i] <= hi
    ensures lo <= Mean(vs) <= hi
  {
    SumBounds(vs, lo, hi);
    var n := |vs| as real;
    assert Sum(vs) / n >= lo by {
      assert Sum(vs) >= n * lo;
    }
    assert Sum(vs) / n <= hi by {
      assert Sum(vs) <= n * hi;
    }
  }

  lemma SuffixInjective(a: string, b: string)
    requires a + AvgSuffix == b + AvgSuffix
    ensures a == b
  {
    assert a == (a + AvgSuffix)[..|a|];
    assert b == (b + AvgSuffix)[..|b|];
  }

  /** The averages dictionary has one `<key>_5min_avg` entry per key, holding
      that key's average. */
  lemma {:induction false} AveragesAt(history: seq<Entry>, keys: seq<string>)
    ensures Averages(history, keys).Keys == set k | k in keys :: k + AvgSuffix
    ensures forall k | k in keys :: Averages(history, keys)[k + AvgSuffix] == AvgOf(history, k)
  {
    if keys != [] {
      var init, last := keys[..|keys| - 1], keys[|keys| - 1];
      AveragesAt(history, init);
      assert keys == init + [last];
      forall k | k in keys ensures Averages(history, keys)[k + AvgSuffix] == AvgOf(history, k) {
        if k + AvgSuffix == last + AvgSuffix {
          SuffixInjective(k, last);
        }
      }
    }
  }
}
