/** The metric reducer of `StatusModule`: a measurements response lists named series of data
    points, and the report needs, per name, the most recent point that holds a value. */
module StatusMetrics {
  import opened Wrappers
  import opened JavaLang

  /** One measurement of a response: its name and its data points, oldest first. A point
      without a value (JSON null) is `None`; `dataPoints` itself is `None` when the key is
      missing. Values are taken to be integers in the range of `long`. */
  datatype Measurement = Measurement(name: string, dataPoints: Option<seq<Option<Long>>>)

  /** The value of the highest-index point that has one. */
  function LatestValue(points: seq<Option<Long>>): (r: Option<Long>)
    ensures r.None? <==> forall k :: 0 <= k < |points| ==> points[k].None?
  {
    if |points| == 0 then None
    else if points[|points| - 1].Some? then points[|points| - 1]
    else
      var r := LatestValue(points[..|points| - 1]);
      assert forall k :: 0 <= k < |points| - 1 ==> points[..|points| - 1][k] == points[k];
      r
  }

  /** The latest value is that of a point which has one and has only empty points after it. */
  lemma {:induction false} LatestValueAt(points: seq<Option<Long>>, k: nat)
    requires k < |points| && points[k].Some?
    requires forall j :: k < j < |points| ==> points[j].None?
    ensures LatestValue(points) == points[k]
  {
    if k < |points| - 1 {
      var prefix := points[..|points| - 1];
      assert prefix[k] == points[k];
      LatestValueAt(prefix, k);
    }
  }

  /** The value a measurement contributes, if any. */
  function Contribution(m: Measurement): Option<Long> {
    match m.dataPoints
    case None => None
    case Some(points) => LatestValue(points)
  }

  /** The map `mapMetrics` builds: measurements in response order, each one with a value
      putting it under its name, so a later one overwrites an earlier one. */
  function Metrics(ms: seq<Measurement>): map<string, Long> {
    if |ms| == 0 then map[]
    else
      var before := Metrics(ms[..|ms| - 1]);
      var m := ms[|ms| - 1];
      match Contribution(m)
      case None => before
      case Some(v) => before[m.name := v]
  }

  /** A name is a key exactly when some measurement of that name has a value: absent, empty
      or all-null data points add nothing. */
  lemma {:induction false} MetricsKeys(ms: seq<Measurement>, name: string)
    ensures name in Metrics(ms) <==> exists k :: 0 <= k < |ms| && ms[k].name == name && Contribution(ms[k]).Some?
  {
    if |ms| > 0 {
      var prefix := ms[..|ms| - 1];
      MetricsKeys(prefix, name);
      assert forall k :: 0 <= k < |prefix| ==> prefix[k] == ms[k];
      if exists k :: 0 <= k < |ms| && ms[k].name == name && Contribution(ms[k]).Some? {
        var k :| 0 <= k < |ms| && ms[k].name == name && Contribution(ms[k]).Some?;
        if k < |prefix| {
          assert prefix[k].name == name && Contribution(prefix[k]).Some?;
        }
      }
    }
  }

  /** The value under a name is the contribution of the last measurement of that name that
      has one. */
  lemma {:induction false} MetricsValue(ms: seq<Measurement>, name: string)
    requires name in Metrics(ms)
    ensures exists k :: 0 <= k < |ms| && ms[k].name == name && Contribution(ms[k]) == Some(Metrics(ms)[name]) &&
              forall j :: k < j < |ms| && ms[j].name == name ==> Contribution(ms[j]).None?
  {
    var prefix := ms[..|ms| - 1];
    var m := ms[|ms| - 1];
    if m.name == name && Contribution(m).Some? {
      assert Contribution(ms[|ms| - 1]) == Some(Metrics(ms)[name]);
    } else {
      MetricsValue(prefix, name);
      var k :| 0 <= k < |prefix| && prefix[k].name == name && Contribution(prefix[k]) == Some(Metrics(prefix)[name])
        && forall j :: k < j < |prefix| && prefix[j].name == name ==> Contribution(prefix[j]).None?;
      assert ms[k] == prefix[k];
      forall j | k < j < |ms| && ms[j].name == name
        ensures Contribution(ms[j]).None?
      {
        if j < |prefix| {
          assert prefix[j] == ms[j];
        }
      }
    }
  }

  /** `getOrDefault(name, 0)` on a metrics map. */
  function GetOrZero(metrics: map<string, Long>, name: string): (r: Long)
    ensures name in metrics ==> r == metrics[name]
    ensures name !in metrics ==> r == 0
  {
    if name in metrics then metrics[name] else 0
  }

  /** `mapMetrics`: the measurements in order; the data points of each from the last towards
      the first, stopping at the first that has a value. */
  method MapMetrics(ms: seq<Measurement>) returns (metrics: map<string, Long>)
    ensures metrics == Metrics(ms)
  {
    metrics := map[];
    for i := 0 to |ms|
      invariant metrics == Metrics(ms[..i])
    {
      assert ms[..i + 1][..i] == ms[..i];
      var m := ms[i];
      if m.dataPoints.None? || |m.dataPoints.value| == 0 {
        continue;
      }
      var points := m.dataPoints.value;
      var j := |points| - 1;
      while j >= 0
        invariant -1 <= j < |points|
        invariant metrics == Metrics(ms[..i])
        invariant forall k :: j < k < |points| ==> points[k].None?
      {
        if points[j].Some? {
          LatestValueAt(points, j);
          metrics := metrics[m.name := points[j].value];
          break;
        }
        j := j - 1;
      }
    }
    assert ms[..|ms|] == ms;
  }

  /** Two measurements of one name: the later one's latest value wins. */
  lemma MetricsOverwriteExample(a: Measurement, b: Measurement)
    requires a.name == b.name
    requires a.dataPoints == Some([Some(1), None]) && b.dataPoints == Some([Some(2), Some(3), None])
    ensures Metrics([a, b]) == map[a.name := 3]
  {
    assert [a, b][..1] == [a];
    assert [a][..0] == [];
    assert LatestValue([Some(1), None]) == Some(1) by {
      assert [Some(1), None][..1] == [Some(1)];
    }
    assert LatestValue([Some(2), Some(3), None]) == Some(3) by {
      assert [Some(2), Some(3), None][..2] == [Some(2), Some(3)];
    }
    assert Metrics([a]) == map[a.name := 1];
  }
}
