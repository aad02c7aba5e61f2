/** The traffic-volume map: the intersections of the location file, each
    starting at volume 0; the volumes the traffic API reports, summed into
    the matching intersection; and the circle marker a volume is drawn
    with. Volumes are integers. */
module TrafficMap {
  import opened Base

  // ---------------------------------------------------------------------
  // getCircle
  // ---------------------------------------------------------------------

  /** The colours a marker can take. */
  datatype Color = Yellow | Orange | Red

  /** The circle properties `getCircle` returns; one it leaves
      `undefined` is `None`. */
  datatype Circle = Circle(color: Option<Color>, fillColor: Option<Color>, radius: Option<int>)

  /** The lower bounds of the yellow, orange and red bands. */
  const Thresholds: seq<int> := [200, 300, 1000]

  /** The colours of the bands, in the order of `Thresholds`. */
  const Palette: seq<Color> := [Yellow, Orange, Red]

  /** How many of the thresholds `ts` the volume `value` reaches. */
  function Reached(ts: seq<int>, value: int): (n: nat)
    ensures n <= |ts|
  {
    if ts == [] then 0 else (if ts[0] <= value then 1 else 0) + Reached(ts[1..], value)
  }

  /** The band of a volume: 0 below every threshold, and 1, 2 or 3 for
      the yellow, orange and red bands. */
  function Band(value: int): nat {
    Reached(Thresholds, value)
  }

  /** The marker of a band: undefined properties for band 0, and
      otherwise the band's colour for both colours and ten times the band
      for the radius. */
  function BandCircle(n: nat): Circle
    requires n <= |Palette|
  {
    if n == 0 then Circle(None, None, None)
    else Circle(Some(Palette[n - 1]), Some(Palette[n - 1]), Some(10 * n))
  }

  /** The band of a volume, worked out against the three thresholds. */
  lemma BandRanges(value: int)
    ensures Band(value) == if value < 200 then 0 else if value < 300 then 1 else if value < 1000 then 2 else 3
  {
    assert Thresholds[1..] == [300, 1000] && [300, 1000][1..] == [1000] && [1000][1..] == [];
    assert Reached([1000], value) == if value >= 1000 then 1 else 0;
    assert Reached([300, 1000], value) == (if value >= 300 then 1 else 0) + Reached([1000], value);
    assert Reached(Thresholds, value) == (if value >= 200 then 1 else 0) + Reached([300, 1000], value);
  }

  /** `getCircle(value)`: three independent tests, each setting all
      three properties when its range holds. The result is the marker of
      the volume's band; so colour and fill colour always agree, and the
      properties are defined exactly from 200 up. */
  function GetCircle(value: int): (c: Circle)
    ensures Band(value) <= |Palette| && c == BandCircle(Band(value))
    ensures c.color == c.fillColor
    ensures c.radius.Some? <==> value >= 200
  {
    BandRanges(value);
    var none := Circle(None, None, None);
    var yellow := if 200 <= value < 300 then Circle(Some(Yellow), Some(Yellow), Some(10)) else none;
    var orange := if 300 <= value < 1000 then Circle(Some(Orange), Some(Orange), Some(20)) else yellow;
    if value >= 1000 then Circle(Some(Red), Some(Red), Some(30)) else orange
  }

  /** A larger count never reaches fewer thresholds. */
  lemma {:induction false} ReachedMonotone(ts: seq<int>, v: int, w: int)
    requires v <= w
    ensures Reached(ts, v) <= Reached(ts, w)
  {
    if ts != [] {
      ReachedMonotone(ts[1..], v, w);
    }
  }

  /** The radius does not shrink as the volume grows: a volume with a
      marker is drawn no larger than any larger volume, which also has
      one. */
  lemma RadiusMonotone(v: int, w: int)
    requires v <= w && GetCircle(v).radius.Some?
    ensures GetCircle(w).radius.Some? && GetCircle(v).radius.value <= GetCircle(w).radius.value
  {
    ReachedMonotone(Thresholds, v, w);
  }

  // ---------------------------------------------------------------------
  // The data
  // ---------------------------------------------------------------------

  /** One element of `trafficData`: an intersection's id and name from
      the location file, and its traffic volume. */
  datatype Site = Site(id: string, location: string, value: int)

  /** One element of the location file. */
  datatype LocationRecord = LocationRecord(id: string, location: string)

  /** One measurement of a reported device. */
  datatype Reading = Reading(name: string, value: int)

  /** One element of the API's response: the device and its
      measurements. */
  datatype Report = Report(devName: string, values: seq<Reading>)

  /** The name of the measurements that count towards the volume. */
  const TrafficVolume: string := "trafficVolume"

  /** The sites `loadLocationData` appends: one per record, in file
      order, at volume 0. */
  function Loaded(locations: seq<LocationRecord>): seq<Site> {
    seq(|locations|, i requires 0 <= i < |locations| => Site(locations[i].id, locations[i].location, 0))
  }

  // ---------------------------------------------------------------------
  // The volume of one report
  // ---------------------------------------------------------------------

  /** The running total of the inner loop after the first `n` readings:
      the values of those named `"trafficVolume"`. */
  function VolumeUpTo(values: seq<Reading>, n: nat): int
    requires n <= |values|
  {
    if n == 0 then 0
    else VolumeUpTo(values, n - 1) + (if values[n - 1].name == TrafficVolume then values[n - 1].value else 0)
  }

  /** The total a report gives its intersection. */
  function Volume(values: seq<Reading>): int {
    VolumeUpTo(values, |values|)
  }

  /** The values of the readings named `"trafficVolume"`, in order. */
  function VolumeValues(values: seq<Reading>): seq<int> {
    if values == [] then []
    else (if values[0].name == TrafficVolume then [values[0].value] else []) + VolumeValues(values[1..])
  }

  function Sum(xs: seq<int>): int {
    if xs == [] then 0 else xs[0] + Sum(xs[1..])
  }

  lemma {:induction false} SumAppend(xs: seq<int>, ys: seq<int>)
    ensures Sum(xs + ys) == Sum(xs) + Sum(ys)
  {
    if xs != [] {
      assert (xs + ys)[1..] == xs[1..] + ys;
      SumAppend(xs[1..], ys);
    } else {
      assert xs + ys == ys;
    }
  }

  lemma {:induction false} VolumeValuesAppend(xs: seq<Reading>, ys: seq<Reading>)
    ensures VolumeValues(xs + ys) == VolumeValues(xs) + VolumeValues(ys)
  {
    if xs != [] {
      assert (xs + ys)[1..] == xs[1..] + ys;
      VolumeValuesAppend(xs[1..], ys);
    } else {
      assert xs + ys == ys;
    }
  }

  /** The total is the sum of the `"trafficVolume"` values and of nothing
      else: every other reading is ignored. */
  lemma VolumeIsSum(values: seq<Reading>)
    ensures Volume(values) == Sum(VolumeValues(values))
  {
    VolumePrefix(values, |values|);
    assert values[..|values|] == values;
  }

  lemma {:induction false} VolumePrefix(values: seq<Reading>, n: nat)
    requires n <= |values|
    ensures VolumeUpTo(values, n) == Sum(VolumeValues(values[..n]))
  {
    if n > 0 {
      VolumePrefix(values, n - 1);
      var r := values[n - 1];
      assert values[..n] == values[..n - 1] + [r];
      VolumeValuesAppend(values[..n - 1], [r]);
      assert VolumeValues([r]) == if r.name == TrafficVolume then [r.value] else [] by {
        assert [r][1..] == [];
      }
      SumAppend(VolumeValues(values[..n - 1]), VolumeValues([r]));
    }
  }

  // ---------------------------------------------------------------------
  // Aggregation
  // ---------------------------------------------------------------------

  /** `trafficData.find(d => d.id === id)`, from index `i` on: the index
      of the first site with that id, or `None` (`undefined`). */
  function FindFrom(sites: seq<Site>, id: string, i: nat): (k: Option<nat>)
    ensures k.Some? ==>
      && i <= k.value < |sites| && sites[k.value].id == id
      && forall j :: i <= j < k.value ==> sites[j].id != id
    ensures k.None? ==> forall j :: i <= j < |sites| ==> sites[j].id != id
    decreases |sites| - i
  {
    if i >= |sites| then None
    else if sites[i].id == id then Some(i)
    else FindFrom(sites, id, i + 1)
  }

  function Find(sites: seq<Site>, id: string): Option<nat> {
    FindFrom(sites, id, 0)
  }

  /** One turn of the outer loop: the site the report names, if any, gets
      the report's total; a report naming no site changes nothing. */
  function Applied(sites: seq<Site>, r: Report): (s: seq<Site>)
    ensures |s| == |sites|
  {
    match Find(sites, r.devName)
    case None => sites
    case Some(k) => sites[k := sites[k].(value := Volume(r.values))]
  }

  /** The sites after the first `n` reports. */
  function Aggregated(sites: seq<Site>, traffic: seq<Report>, n: nat): (s: seq<Site>)
    requires n <= |traffic|
    ensures |s| == |sites|
  {
    if n == 0 then sites else Applied(Aggregated(sites, traffic, n - 1), traffic[n - 1])
  }

  /** The last of the first `n` reports that names `id`. */
  function LastReport(traffic: seq<Report>, id: string, n: nat): (j: Option<nat>)
    requires n <= |traffic|
    ensures j.Some? ==>
      && j.value < n && traffic[j.value].devName == id
      && forall i :: j.value < i < n ==> traffic[i].devName != id
    ensures j.None? ==> forall i :: 0 <= i < n ==> traffic[i].devName != id
  {
    if n == 0 then None
    else if traffic[n - 1].devName == id then Some(n - 1)
    else LastReport(traffic, id, n - 1)
  }

  /** Sites with the same ids give the same answers to `find`. */
  lemma {:induction false} FindSameIds(a: seq<Site>, b: seq<Site>, id: string, i: nat)
    requires |a| == |b| && forall k :: 0 <= k < |a| ==> a[k].id == b[k].id
    ensures FindFrom(a, id, i) == FindFrom(b, id, i)
    decreases |a| - i
  {
    if i < |a| && a[i].id != id {
      FindSameIds(a, b, id, i + 1);
    }
  }

  /** Aggregation only ever changes volumes: the table keeps its length,
      and every site its id and its name. */
  lemma {:induction false} AggregatedKeepsSites(sites: seq<Site>, traffic: seq<Report>, n: nat)
    requires n <= |traffic|
    ensures var s := Aggregated(sites, traffic, n);
      forall k :: 0 <= k < |s| ==> s[k].id == sites[k].id && s[k].location == sites[k].location
  {
    if n > 0 {
      AggregatedKeepsSites(sites, traffic, n - 1);
    }
  }

  /** What aggregation leaves in each site: the total of the last report
      naming it, if there is one and the site is the first with its id;
      otherwise the volume it had. So a report only ever overwrites, a
      device reported twice keeps its later total, and a site behind an
      earlier one with the same id is never updated. */
  lemma {:induction false} AggregatedValue(sites: seq<Site>, traffic: seq<Report>, n: nat, k: nat)
    requires n <= |traffic| && k < |sites|
    ensures var id := sites[k].id;
      var last := LastReport(traffic, id, n);
      Aggregated(sites, traffic, n)[k].value ==
        if Find(sites, id) == Some(k) && last.Some? then Volume(traffic[last.value].values) else sites[k].value
  {
    if n > 0 {
      AggregatedValue(sites, traffic, n - 1, k);
      var before := Aggregated(sites, traffic, n - 1);
      AggregatedKeepsSites(sites, traffic, n - 1);
      FindSameIds(before, sites, traffic[n - 1].devName, 0);
      AppliedValue(before, traffic[n - 1], k);
    }
  }

  /** One report sets the site `find` picks for it, and only that one. */
  lemma AppliedValue(sites: seq<Site>, r: Report, k: nat)
    requires k < |sites|
    ensures Applied(sites, r)[k].value == if Find(sites, r.devName) == Some(k) then Volume(r.values) else sites[k].value
  {
  }

  /** An intersection loaded from the file that no report names stays at
      volume 0 and so is drawn with no colour and no radius. */
  lemma UnreportedStaysBlank(locations: seq<LocationRecord>, traffic: seq<Report>, k: nat)
    requires k < |locations|
    requires forall j :: 0 <= j < |traffic| ==> traffic[j].devName != locations[k].id
    ensures var s := Aggregated(Loaded(locations), traffic, |traffic|);
      k < |s| && s[k].value == 0 && GetCircle(s[k].value) == Circle(None, None, None)
  {
    AggregatedValue(Loaded(locations), traffic, |traffic|, k);
  }

  // ---------------------------------------------------------------------
  // The table
  // ---------------------------------------------------------------------

  /** The inner loop of `fetchTrafficData`: add up the readings named
      `"trafficVolume"`. */
  method LocationTotal(values: seq<Reading>) returns (total: int)
    ensures total == Volume(values)
  {
    total := 0;
    var i := 0;
    while i < |values|
      invariant 0 <= i <= |values|
      invariant total == VolumeUpTo(values, i)
    {
      if values[i].name == TrafficVolume {
        total := total + values[i].value;
      }
      i := i + 1;
    }
  }

  /** The array `trafficData` that `createMap` fills. */
  class TrafficData {
    var sites: seq<Site>

    /** `let trafficData = []`. */
    constructor ()
      ensures sites == []
    {
      sites := [];
    }

    /** `loadLocationData`, given the parsed location file: push one site
        per record, at volume 0. */
    method LoadLocationData(locations: seq<LocationRecord>)
      modifies this
      ensures sites == old(sites) + Loaded(locations)
    {
      var i := 0;
      while i < |locations|
        invariant 0 <= i <= |locations|
        invariant sites == old(sites) + Loaded(locations)[..i]
      {
        sites := sites + [Site(locations[i].id, locations[i].location, 0)];
        i := i + 1;
      }
    }

    /** `fetchTrafficData`, given the parsed response or `None` when the
        fetch, the status check or the decoding threw (the error is only
        logged, and the table is left alone). */
    method FetchTrafficData(response: Option<seq<Report>>)
      modifies this
      ensures response.None? ==> sites == old(sites)
      ensures response.Some? ==> sites == Aggregated(old(sites), response.value, |response.value|)
    {
      if response.None? {
        return;
      }
      var traffic := response.value;
      var n := 0;
      while n < |traffic|
        invariant 0 <= n <= |traffic|
        invariant sites == Aggregated(old(sites), traffic, n)
      {
        var location := traffic[n];
        var entry := Find(sites, location.devName);
        if entry.Some? {
          var total := LocationTotal(location.values);
          sites := sites[entry.value := sites[entry.value].(value := total)];
        }
        n := n + 1;
      }
    }
  }
}
