/** The window statistics of sensor_average_max_min: each of the 30 samples
    of one sensor is checked against that sensor's inclusive validity range
    (update_sensor_total); valid samples are summed, counted, tracked for
    maximum and minimum, and collected for the median. The average and the
    median are produced only when the count and the total are both positive;
    otherwise the sensor is marked SENSOR_DATA_INVALID. Values are exact
    reals, standing for the firmware's doubles. */
module Statistics {
  import opened Wrappers
  import opened SystemData
  import opened SampleWindow

  // ---------------------------------------------------------------------
  // Validity ranges

  /** An inclusive range; MASS_FLOW has no lower end. */
  datatype Range = Range(low: Option<real>, high: real)
  {
    predicate Contains(v: real)
    {
      (low.None? || low.value <= v) && v <= high
    }
  }

  /** The validity range of each sensor. */
  function Bounds(name: SensorName): Range
  {
    match name
    case SkidO2 => Range(Some(0.0), 23.0)
    case SkidMassFlow => Range(None, 60.0)
    case SkidCo2 => Range(Some(0.0), 1.0)
    case SkidProportionalValveSensor => Range(Some(0.0), 3.0)
    case SkidTemperature => Range(Some(-20.0), 120.0)
    case SkidHumidity => Range(Some(0.0), 100.0)
    case UnitVacuumSensor => Range(Some(0.0), 1.2)
    case UnitAmbientHumidity => Range(Some(0.0), 100.0)
    case UnitAmbientTemperature => Range(Some(-20.0), 120.0)
    case UnitHeater => Range(Some(0.0), 150.0)
    case TankPressure => Range(Some(0.0), 6.0)
  }

  /** update_sensor_total's rejection test, one disjunct per sensor; it
      rejects exactly what lies outside the sensor's inclusive range. */
  function Rejects(name: SensorName, v: real): (bad: bool)
    ensures bad <==> !Bounds(name).Contains(v)
  {
    || (name == SkidO2 && (v < 0.0 || v > 23.0))
    || (name == SkidMassFlow && v > 60.0)
    || (name == SkidCo2 && (v < 0.0 || v > 1.0))
    || (name == SkidProportionalValveSensor && (v < 0.0 || v > 3.0))
    || (name == SkidTemperature && (v < -20.0 || v > 120.0))
    || (name == SkidHumidity && (v < 0.0 || v > 100.0))
    || (name == UnitVacuumSensor && (v < 0.0 || v > 1.2))
    || (name == UnitAmbientHumidity && (v < 0.0 || v > 100.0))
    || (name == UnitAmbientTemperature && (v < -20.0 || v > 120.0))
    || (name == UnitHeater && (v < 0.0 || v > 150.0))
    || (name == TankPressure && (v < 0.0 || v > 6.0))
  }

  /** A sample counts exactly when it lies inside its sensor's inclusive range. */
  function Accepts(name: SensorName, v: real): (ok: bool)
    ensures ok <==> Bounds(name).Contains(v)
  {
    !Rejects(name, v)
  }

  /** Mass flow is the one sensor without a lower bound. */
  lemma OnlyMassFlowUnbounded(name: SensorName)
    ensures Bounds(name).low.None? <==> name == SkidMassFlow
    ensures name == SkidMassFlow ==> forall v: real :: v <= 60.0 ==> Accepts(name, v)
  {
  }

  // ---------------------------------------------------------------------
  // Reference definitions

  function Sum(s: seq<real>): real
    decreases |s|
  {
    if |s| == 0 then 0.0 else Sum(s[..|s| - 1]) + s[|s| - 1]
  }

  /** The valid samples, in window order. */
  function Filter(name: SensorName, s: seq<real>): (r: seq<real>)
    ensures |r| <= |s|
    decreases |s|
  {
    if |s| == 0 then []
    else Filter(name, s[..|s| - 1]) + (if Accepts(name, s[|s| - 1]) then [s[|s| - 1]] else [])
  }

  lemma {:induction false} FilterAccepted(name: SensorName, s: seq<real>, v: real)
    requires v in Filter(name, s)
    ensures v in s && Accepts(name, v)
    decreases |s|
  {
    if |s| > 0 {
      var init := s[..|s| - 1];
      if v in Filter(name, init) {
        FilterAccepted(name, init, v);
      }
    }
  }

  /** The converse: every valid sample of the window is kept. */
  lemma {:induction false} FilterKeeps(name: SensorName, s: seq<real>, v: real)
    requires v in s && Accepts(name, v)
    ensures v in Filter(name, s)
    decreases |s|
  {
    var init := s[..|s| - 1];
    if v != s[|s| - 1] {
      assert v in init;
      FilterKeeps(name, init, v);
    }
  }

  // ---------------------------------------------------------------------
  // The scan over the window

  /** What the scan has gathered: total, number_of_valid_samples, max, min
      and the valid samples copied out for the median. */
  datatype Acc = Acc(total: real, count: nat, max: real, min: real, picked: seq<real>)

  /** Sample 0: it seeds max and min when valid; otherwise they stay at 0.0. */
  function First(name: SensorName, v: real): Acc
  {
    if Accepts(name, v) then Acc(v, 1, v, v, [v]) else Acc(0.0, 0, 0.0, 0.0, [])
  }

  /** Samples 1 to 29. */
  function Absorb(name: SensorName, a: Acc, v: real): Acc
  {
    if Accepts(name, v) then
      Acc(a.total + v, a.count + 1, if v > a.max then v else a.max, if v < a.min then v else a.min, a.picked + [v])
    else a
  }

  /** The accumulator after the first `n` samples. */
  function Scan(name: SensorName, s: seq<real>, n: nat): Acc
    requires 1 <= n <= |s|
    decreases n
  {
    if n == 1 then First(name, s[0]) else Absorb(name, Scan(name, s, n - 1), s[n - 1])
  }

  /** The scan collects exactly the valid samples, and counts and sums them. */
  lemma {:induction false} ScanCollects(name: SensorName, s: seq<real>, n: nat)
    requires 1 <= n <= |s|
    ensures var a := Scan(name, s, n);
      && a.picked == Filter(name, s[..n])
      && a.count == |a.picked|
      && a.total == Sum(a.picked)
    decreases n
  {
    if n == 1 {
      assert s[..1][..0] == [];
    } else {
      ScanCollects(name, s, n - 1);
      FilterPrefix(name, s, n);
      AbsorbCollects(name, Scan(name, s, n - 1), s[n - 1]);
    }
  }

  /** Filtering one more sample appends it exactly when it is valid. */
  lemma FilterPrefix(name: SensorName, s: seq<real>, n: nat)
    requires 1 <= n <= |s|
    ensures Filter(name, s[..n]) == Filter(name, s[..n - 1]) + (if Accepts(name, s[n - 1]) then [s[n - 1]] else [])
  {
    assert s[..n][..n - 1] == s[..n - 1];
  }

  /** One scan step keeps count and total in step with the collected samples. */
  lemma AbsorbCollects(name: SensorName, a: Acc, v: real)
    requires a.count == |a.picked| && a.total == Sum(a.picked)
    ensures var b := Absorb(name, a, v);
      && b.picked == a.picked + (if Accepts(name, v) then [v] else [])
      && b.count == |b.picked| && b.total == Sum(b.picked)
  {
    if Accepts(name, v) {
      assert (a.picked + [v])[..|a.picked|] == a.picked;
    }
  }

  /** Max and min bracket the collected samples. They are samples themselves
      when sample 0 is valid; otherwise each is either the 0.0 seed or a
      sample on the far side of it. */
  lemma {:induction false} ScanBrackets(name: SensorName, s: seq<real>, n: nat)
    requires 1 <= n <= |s|
    ensures var a := Scan(name, s, n);
      && (forall v :: v in a.picked ==> a.min <= v <= a.max)
      && (Accepts(name, s[0]) ==> a.max in a.picked && a.min in a.picked)
      && (!Accepts(name, s[0]) ==> (a.max == 0.0 || a.max in a.picked) && 0.0 <= a.max)
      && (!Accepts(name, s[0]) ==> (a.min == 0.0 || a.min in a.picked) && a.min <= 0.0)
    decreases n
  {
    if n > 1 {
      ScanBrackets(name, s, n - 1);
    }
  }

  // ---------------------------------------------------------------------
  // Median

  predicate Sorted(s: seq<real>)
  {
    forall i, j :: 0 <= i < j < |s| ==> s[i] <= s[j]
  }

  function Insert(x: real, s: seq<real>): (r: seq<real>)
    requires Sorted(s)
    ensures Sorted(r) && multiset(r) == multiset(s) + multiset{x} && |r| == |s| + 1
    decreases |s|
  {
    if |s| == 0 then [x]
    else if x <= s[0] then [x] + s
    else
      var t := Insert(x, s[1..]);
      assert s == [s[0]] + s[1..];
      BoundKept(s[0], x, s[1..], t);
      [s[0]] + t
  }

  /** A lower bound of `s` and of `x` bounds every element of a sequence
      holding exactly `s` and `x`. */
  lemma BoundKept(low: real, x: real, s: seq<real>, t: seq<real>)
    requires low <= x && (forall j :: 0 <= j < |s| ==> low <= s[j])
    requires multiset(t) == multiset(s) + multiset{x}
    ensures forall j :: 0 <= j < |t| ==> low <= t[j]
  {
    forall j | 0 <= j < |t|
      ensures low <= t[j]
    {
      assert t[j] in multiset(t);
      if t[j] != x {
        assert t[j] in multiset(s);
      }
    }
  }

  /** The ordering qsort produces with an exact comparator. */
  function Sort(s: seq<real>): (r: seq<real>)
    ensures Sorted(r) && multiset(r) == multiset(s) && |r| == |s|
    decreases |s|
  {
    if |s| == 0 then []
    else
      assert s == s[..|s| - 1] + [s[|s| - 1]];
      Insert(s[|s| - 1], Sort(s[..|s| - 1]))
  }

  lemma SortedHeadIsLeast(s: seq<real>, v: real)
    requires Sorted(s) && v in multiset(s)
    ensures 0 < |s| && s[0] <= v
  {
    var i :| 0 <= i < |s| && s[i] == v;
  }

  /** Dropping the head of a sorted sequence leaves it sorted and removes
      one copy of the head from its multiset. */
  lemma SortedTail(s: seq<real>)
    requires Sorted(s) && 0 < |s|
    ensures Sorted(s[1..]) && multiset(s[1..]) == multiset(s) - multiset{s[0]}
  {
    assert s == [s[0]] + s[1..];
    assert multiset(s) == multiset{s[0]} + multiset(s[1..]);
  }

  /** A multiset has only one sorted arrangement, so any sort that orders
      exactly yields `Sort`'s result. */
  lemma {:induction false} SortedUnique(a: seq<real>, b: seq<real>)
    requires Sorted(a) && Sorted(b) && multiset(a) == multiset(b)
    ensures a == b
    decreases |a|
  {
    if |a| > 0 {
      assert a[0] in multiset(a);
      assert |b| == |a|;
      SortedHeadIsLeast(b, a[0]);
      assert b[0] in multiset(b);
      SortedHeadIsLeast(a, b[0]);
      assert a[0] == b[0];
      SortedTail(a);
      SortedTail(b);
      SortedUnique(a[1..], b[1..]);
    }
  }

  /** compare_for_sort: the difference of two doubles converted to int, which
      truncates toward zero. */
  function CompareForSort(a: real, b: real): (r: int)
    ensures r < 0 ==> a < b
    ensures r > 0 ==> a > b
    ensures a - b >= 1.0 ==> r > 0
    ensures a - b <= -1.0 ==> r < 0
    ensures -1.0 < a - b < 1.0 ==> r == 0
  {
    var d := a - b;
    if d >= 0.0 then d.Floor else -((-d).Floor)
  }

  /** The comparator calls samples less than one apart equal. */
  lemma ComparatorTiesCloseValues()
    ensures CompareForSort(0.5, 0.0) == 0 && 0.0 < 0.5
  {
  }

  /** get_median: sorts only the first `count` entries but always averages
      entries 14 and 15 of the 30-entry array. */
  function GetMedian(samples: seq<real>, count: nat): (m: real)
    requires |samples| == NumberOfSamples && count <= NumberOfSamples
    ensures NumberOfSamples / 2 < count ==>
      exists i, j :: 0 <= i < count && 0 <= j < count && m == (samples[i] + samples[j]) / 2.0
  {
    var arranged := Sort(samples[..count]) + samples[count..];
    if NumberOfSamples / 2 < count then
      MiddleFromPrefix(samples, count);
      (arranged[NumberOfSamples / 2 - 1] + arranged[NumberOfSamples / 2]) / 2.0
    else
      (arranged[NumberOfSamples / 2 - 1] + arranged[NumberOfSamples / 2]) / 2.0
  }

  /** Every entry of the sorted prefix is an entry of the prefix. */
  lemma SortedEntryFromPrefix(samples: seq<real>, count: nat, k: nat)
    requires count <= |samples| && k < count
    ensures exists i :: 0 <= i < count && samples[i] == Sort(samples[..count])[k]
  {
    var prefix := samples[..count];
    var x := Sort(prefix)[k];
    assert x in multiset(Sort(prefix));
    assert x in prefix;
    var i :| 0 <= i < count && prefix[i] == x;
    assert samples[i] == x;
  }

  /** Once more than half the entries are sorted, both middle entries of the
      sorted prefix are entries of that prefix. */
  lemma MiddleFromPrefix(samples: seq<real>, count: nat)
    requires |samples| == NumberOfSamples && NumberOfSamples / 2 < count <= NumberOfSamples
    ensures var sorted := Sort(samples[..count]);
      exists i, j :: 0 <= i < count && 0 <= j < count &&
        (sorted[NumberOfSamples / 2 - 1] + sorted[NumberOfSamples / 2]) / 2.0 == (samples[i] + samples[j]) / 2.0
  {
    SortedEntryFromPrefix(samples, count, NumberOfSamples / 2 - 1);
    SortedEntryFromPrefix(samples, count, NumberOfSamples / 2);
    var sorted := Sort(samples[..count]);
    var i :| 0 <= i < count && samples[i] == sorted[NumberOfSamples / 2 - 1];
    var j :| 0 <= j < count && samples[j] == sorted[NumberOfSamples / 2];
    assert (sorted[NumberOfSamples / 2 - 1] + sorted[NumberOfSamples / 2]) / 2.0 == (samples[i] + samples[j]) / 2.0;
  }

  /** For every number of valid samples: the median is the mean of entries
      14 and 15 of the array whose first `count` entries are put in order by
      any exact sort and whose remaining entries are left as they were. */
  lemma MedianOfSortedPrefix(samples: seq<real>, count: nat, sorted: seq<real>)
    requires |samples| == NumberOfSamples && count <= NumberOfSamples
    requires |sorted| == count && Sorted(sorted) && multiset(sorted) == multiset(samples[..count])
    ensures var arranged := sorted + samples[count..];
      GetMedian(samples, count) == (arranged[NumberOfSamples / 2 - 1] + arranged[NumberOfSamples / 2]) / 2.0
  {
    SortedUnique(Sort(samples[..count]), sorted);
  }

  /** With exactly 15 valid samples the median averages the largest valid
      sample with entry 15, which the sort never touched. */
  lemma MedianAtFifteen(samples: seq<real>, sorted: seq<real>)
    requires |samples| == NumberOfSamples
    requires |sorted| == 15 && Sorted(sorted) && multiset(sorted) == multiset(samples[..15])
    ensures GetMedian(samples, 15) == (sorted[14] + samples[15]) / 2.0
    ensures forall k :: 0 <= k < 15 ==> samples[k] <= sorted[14]
  {
    MedianOfSortedPrefix(samples, 15, sorted);
    assert (sorted + samples[15..])[15] == samples[15];
    forall k | 0 <= k < 15
      ensures samples[k] <= sorted[14]
    {
      assert samples[k] == samples[..15][k];
      assert samples[k] in multiset(sorted);
      var i :| 0 <= i < 15 && sorted[i] == samples[k];
    }
  }

  /** With every sample valid it is the usual median: the mean of the 15th
      and 16th smallest, as any exact sort would arrange them. */
  lemma MedianOfFullWindow(samples: seq<real>, sorted: seq<real>)
    requires |samples| == NumberOfSamples
    requires |sorted| == NumberOfSamples && Sorted(sorted) && multiset(sorted) == multiset(samples)
    ensures GetMedian(samples, NumberOfSamples) == (sorted[14] + sorted[15]) / 2.0
  {
    assert samples[..NumberOfSamples] == samples;
    SortedUnique(Sort(samples), sorted);
  }

  /** With 14 or fewer valid samples it averages two entries the sort never
      touched. */
  lemma MedianIgnoresCount(samples: seq<real>, count: nat)
    requires |samples| == NumberOfSamples && count <= NumberOfSamples / 2 - 1
    ensures GetMedian(samples, count) == (samples[14] + samples[15]) / 2.0
  {
  }

  // ---------------------------------------------------------------------
  // sensor_average_max_min

  /** The 30-entry array get_median sees: the valid samples copied to the
      front, sample 0 written to entry 0 first, and whatever the stack held
      (`stale`) behind them. */
  function Arranged(picked: seq<real>, first: real, stale: seq<real>): (r: seq<real>)
    requires |stale| == NumberOfSamples && |picked| <= NumberOfSamples
    ensures |r| == NumberOfSamples && r[..|picked|] == picked
  {
    picked + stale[0 := first][|picked|..]
  }

  /** The statistics of one sensor over its 30 samples. `status` is what the
      caller's record already holds there; `stale` is the uninitialised
      stack array the median is taken from. */
  function SensorAverageMaxMin(name: SensorName, samples: seq<real>, stale: seq<real>, status: SensorStatus): (r: SensorInfo)
    requires |samples| == NumberOfSamples && |stale| == NumberOfSamples
    ensures var vs := Filter(name, samples);
      if 0 < |vs| && Sum(vs) > 0.0 then
        && r.status == status
        && r.stats.avg == Sum(vs) / (|vs| as real)
        && r.stats.median == GetMedian(vs + stale[|vs|..], |vs|)
      else
        && r.status == SensorDataInvalid && r.stats.avg == 0.0
        && r.stats.median == (if Accepts(name, samples[0]) then samples[0] else 0.0)
    ensures forall v :: v in Filter(name, samples) ==> r.stats.min <= v <= r.stats.max
    ensures Accepts(name, samples[0]) ==> r.stats.max in Filter(name, samples) && r.stats.min in Filter(name, samples)
    ensures !Accepts(name, samples[0]) ==> 0.0 <= r.stats.max && (r.stats.max == 0.0 || r.stats.max in Filter(name, samples))
    ensures !Accepts(name, samples[0]) ==> r.stats.min <= 0.0 && (r.stats.min == 0.0 || r.stats.min in Filter(name, samples))
    ensures |Filter(name, samples)| == 0 ==> r.stats == SensorStats(0.0, 0.0, 0.0, 0.0)
  {
    var a := Scan(name, samples, NumberOfSamples);
    ScanCollects(name, samples, NumberOfSamples);
    ScanBrackets(name, samples, NumberOfSamples);
    assert samples[..NumberOfSamples] == samples;
    if a.count != 0 && a.total > 0.0 then
      var arranged := Arranged(a.picked, samples[0], stale);
      assert arranged == a.picked + stale[a.count..];
      SensorInfo(status, SensorStats(a.total / (a.count as real), a.max, a.min, GetMedian(arranged, a.count)))
    else
      SensorInfo(SensorDataInvalid, SensorStats(0.0, a.max, a.min, if Accepts(name, samples[0]) then samples[0] else 0.0))
  }

  /** The firmware's pass over the window, statement for statement: sample 0
      first, then samples 1 to 29, copying valid ones to the front of the
      median array. */
  method ScanWindow(name: SensorName, samples: seq<real>, stale: seq<real>)
    returns (total: real, count: nat, max: real, min: real, arranged: seq<real>)
    requires |samples| == NumberOfSamples && |stale| == NumberOfSamples
    ensures |arranged| == NumberOfSamples && count <= NumberOfSamples
    ensures Acc(total, count, max, min, arranged[..count]) == Scan(name, samples, NumberOfSamples)
    ensures arranged == Arranged(arranged[..count], samples[0], stale)
  {
    total, count, max, min := 0.0, 0, 0.0, 0.0;
    arranged := stale;
    var v := samples[0];
    arranged := arranged[0 := v];
    if Accepts(name, v) {
      total := total + v;
      count := count + 1;
      arranged := arranged[count - 1 := v];
      max, min := v, v;
    }
    assert arranged[..count] == First(name, v).picked;
    total, count, max, min, arranged := ScanRest(name, samples, stale[0 := v], total, count, max, min, arranged);
    assert arranged == arranged[..count] + arranged[count..];
  }

  /** The loop over samples 1 to 29. `back` is what lies behind the copied
      samples and is never written again. */
  method ScanRest(name: SensorName, samples: seq<real>, back: seq<real>,
                  total0: real, count0: nat, max0: real, min0: real, arranged0: seq<real>)
    returns (total: real, count: nat, max: real, min: real, arranged: seq<real>)
    requires |samples| == NumberOfSamples && |back| == NumberOfSamples && |arranged0| == NumberOfSamples
    requires count0 <= 1 && Acc(total0, count0, max0, min0, arranged0[..count0]) == Scan(name, samples, 1)
    requires arranged0[count0..] == back[count0..]
    ensures |arranged| == NumberOfSamples && count <= NumberOfSamples
    ensures Acc(total, count, max, min, arranged[..count]) == Scan(name, samples, NumberOfSamples)
    ensures arranged[count..] == back[count..]
  {
    total, count, max, min, arranged := total0, count0, max0, min0, arranged0;
    var i := 1;
    while i < NumberOfSamples
      invariant 1 <= i <= NumberOfSamples
      invariant |arranged| == NumberOfSamples && count <= i
      invariant Acc(total, count, max, min, arranged[..count]) == Scan(name, samples, i)
      invariant arranged[count..] == back[count..]
    {
      var v := samples[i];
      ghost var before := Acc(total, count, max, min, arranged[..count]);
      if Accepts(name, v) {
        total := total + v;
        UpdateSplit(arranged, count, v, back);
        arranged := arranged[count := v];
        count := count + 1;
        if v > max {
          max := v;
        }
        if v < min {
          min := v;
        }
      }
      assert Acc(total, count, max, min, arranged[..count]) == Absorb(name, before, v);
      i := i + 1;
    }
  }

  /** Writing slot `c` extends the front by one and leaves the back as it was. */
  lemma UpdateSplit(a: seq<real>, c: nat, v: real, back: seq<real>)
    requires c < |a| && |back| == |a| && a[c..] == back[c..]
    ensures a[c := v][..c + 1] == a[..c] + [v] && a[c := v][c + 1..] == back[c + 1..]
  {
    assert a[c + 1..] == a[c..][1..];
  }

  /** sensor_average_max_min as the firmware runs it. */
  method SensorAverageMaxMinLoop(name: SensorName, samples: seq<real>, stale: seq<real>, status: SensorStatus)
    returns (r: SensorInfo)
    requires |samples| == NumberOfSamples && |stale| == NumberOfSamples
    ensures r == SensorAverageMaxMin(name, samples, stale, status)
  {
    var avg, median := 0.0, 0.0;
    var total, count, max, min, arranged := ScanWindow(name, samples, stale);
    if Accepts(name, samples[0]) {
      median := samples[0];
    }
    if count != 0 && total > 0.0 {
      avg := total / (count as real);
      median := GetMedian(arranged, count);
      r := SensorInfo(status, SensorStats(avg, max, min, median));
    } else {
      r := SensorInfo(SensorDataInvalid, SensorStats(avg, max, min, median));
    }
  }

  /** When sample 0 is invalid and every valid sample is positive, the
      reported minimum is the 0.0 seed rather than any sample. */
  lemma MinSeededAtZero(name: SensorName, samples: seq<real>, stale: seq<real>, status: SensorStatus)
    requires |samples| == NumberOfSamples && |stale| == NumberOfSamples
    requires !Accepts(name, samples[0])
    requires forall v :: v in Filter(name, samples) ==> v > 0.0
    ensures SensorAverageMaxMin(name, samples, stale, status).stats.min == 0.0
  {
    ScanCollects(name, samples, NumberOfSamples);
    ScanBrackets(name, samples, NumberOfSamples);
    assert samples[..NumberOfSamples] == samples;
  }

  /** A window of valid samples whose total is not positive (a cold
      temperature sensor, say) is reported invalid, yet its max and min are
      still filled in from the samples. */
  lemma InvalidKeepsExtremes(name: SensorName, samples: seq<real>, stale: seq<real>, status: SensorStatus)
    requires |samples| == NumberOfSamples && |stale| == NumberOfSamples
    requires Accepts(name, samples[0]) && Sum(Filter(name, samples)) <= 0.0
    ensures var r := SensorAverageMaxMin(name, samples, stale, status);
      && r.status == SensorDataInvalid
      && r.stats.max in Filter(name, samples) && r.stats.min in Filter(name, samples)
      && r.stats.median == samples[0]
  {
    ScanCollects(name, samples, NumberOfSamples);
    ScanBrackets(name, samples, NumberOfSamples);
    assert samples[..NumberOfSamples] == samples;
  }

  /** Once a caller's record says SENSOR_DATA_INVALID, no later pass makes it valid again. */
  lemma InvalidSticks(name: SensorName, samples: seq<real>, stale: seq<real>)
    requires |samples| == NumberOfSamples && |stale| == NumberOfSamples
    ensures SensorAverageMaxMin(name, samples, stale, SensorDataInvalid).status == SensorDataInvalid
  {
  }
}
