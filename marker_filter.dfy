/** The single-layer map: two threshold sliders that add a population marker to the map or
    take it off, one marker at a time, so that after an update exactly the markers meeting
    both thresholds are on the map. */
module MarkerFilter {
  import opened MapLayers
  import TimeSlider

  /** The rule of the script: both percentages reach their thresholds. A marker without
      `percent65` and `percent85` options compares false and is never shown. */
  predicate Shows(options: MarkerOptions, t65: real, t85: real)
  {
    options.Actual? && options.percent65 >= t65 && options.percent85 >= t85
  }

  /** The marker indices that meet the thresholds. */
  function Passing(markers: seq<CircleMarker>, t65: real, t85: real): (s: set<nat>)
    ensures forall i: nat :: i in s <==> i < |markers| && Shows(markers[i].options, t65, t85)
  {
    set i: nat | i < |markers| && Shows(markers[i].options, t65, t85)
  }

  /** The marker indices that fail the thresholds. */
  function Failing(markers: seq<CircleMarker>, t65: real, t85: real): (s: set<nat>)
    ensures forall i: nat :: i in s <==> i < |markers| && !Shows(markers[i].options, t65, t85)
  {
    set i: nat | i < |markers| && !Shows(markers[i].options, t65, t85)
  }

  /** The indices of `n` markers. */
  function Indices(n: nat): (s: set<nat>)
    ensures forall i: nat :: i in s <==> i < n
  {
    if n == 0 then {} else Indices(n - 1) + {n - 1}
  }

  /** Every marker index passes or fails, and none does both. */
  lemma PassingFailingPartition(markers: seq<CircleMarker>, t65: real, t85: real)
    ensures Passing(markers, t65, t85) * Failing(markers, t65, t85) == {}
    ensures Passing(markers, t65, t85) + Failing(markers, t65, t85) == Indices(|markers|)
  {
  }

  /** On actual-data markers both maps apply the same rule, whatever the slider map's
      drop-down says; predicted markers are never shown here. */
  lemma SameRuleAsSliderMap(options: MarkerOptions, t65: real, t85: real, mode: TimeSlider.PredFilter)
    ensures Shows(options, t65, t85) <==> options.Actual? && TimeSlider.Visible(options, t65, t85, mode)
  {
  }

  /** The markers an update adds: passing and not yet on the map. */
  function AddedBy(onMap: set<nat>, markers: seq<CircleMarker>, t65: real, t85: real): set<nat>
  {
    Passing(markers, t65, t85) - onMap
  }

  /** The markers an update removes: failing and on the map. */
  function RemovedBy(onMap: set<nat>, markers: seq<CircleMarker>, t65: real, t85: real): set<nat>
  {
    Failing(markers, t65, t85) * onMap
  }

  /** The markers on the map after an update. */
  function AfterFilter(onMap: set<nat>, markers: seq<CircleMarker>, t65: real, t85: real): (after: set<nat>)
    ensures forall i :: 0 <= i < |markers| ==> (i in after <==> Shows(markers[i].options, t65, t85))
  {
    (onMap - RemovedBy(onMap, markers, t65, t85)) + AddedBy(onMap, markers, t65, t85)
  }

  /** Updating twice with the same thresholds is updating once, and the second update adds
      and removes nothing. */
  lemma UpdateIdempotent(onMap: set<nat>, markers: seq<CircleMarker>, t65: real, t85: real)
    ensures var after := AfterFilter(onMap, markers, t65, t85);
      && AfterFilter(after, markers, t65, t85) == after
      && AddedBy(after, markers, t65, t85) == {}
      && RemovedBy(after, markers, t65, t85) == {}
  {
    var after := AfterFilter(onMap, markers, t65, t85);
    assert AddedBy(after, markers, t65, t85) == {} by {
      forall i | i in Passing(markers, t65, t85) ensures i in after {
        assert i < |markers|;
      }
    }
    assert RemovedBy(after, markers, t65, t85) == {} by {
      forall i | i in Failing(markers, t65, t85) ensures i !in after {
        assert i < |markers|;
      }
    }
  }

  /** An update touches only indices of markers: any other index is left as it was. */
  lemma UpdateKeepsOthers(onMap: set<nat>, markers: seq<CircleMarker>, t65: real, t85: real, k: nat)
    requires k >= |markers|
    ensures k in AfterFilter(onMap, markers, t65, t85) <==> k in onMap
  {
  }

  /** Lowering both thresholds never takes a marker off the map. */
  lemma LowerThresholdsKeep(onMap: set<nat>, markers: seq<CircleMarker>, t65: real, t85: real, u65: real, u85: real)
    requires u65 <= t65 && u85 <= t85
    ensures RemovedBy(AfterFilter(onMap, markers, t65, t85), markers, u65, u85) == {}
  {
    var after := AfterFilter(onMap, markers, t65, t85);
    forall i | i in Failing(markers, u65, u85) ensures i !in after {
      assert i < |markers|;
    }
  }

  /** The map page: the population markers and the indices of those currently on the map. */
  class FilterMap {
    const markers: seq<CircleMarker>
    var onMap: set<nat>

    /** The page as saved: every marker of the group is on the map. */
    constructor (ms: seq<CircleMarker>)
      ensures markers == ms
      ensures onMap == Indices(|ms|)
    {
      markers := ms;
      onMap := Indices(|ms|);
    }

    /** `updateMarkers`: visits every marker, adds it when it passes and is absent, removes
        it when it fails and is present. */
    method UpdateMarkers(t65: real, t85: real) returns (added: set<nat>, removed: set<nat>)
      modifies this
      ensures onMap == AfterFilter(old(onMap), markers, t65, t85)
      ensures added == AddedBy(old(onMap), markers, t65, t85)
      ensures removed == RemovedBy(old(onMap), markers, t65, t85)
      ensures forall i :: 0 <= i < |markers| ==> (i in onMap <==> Shows(markers[i].options, t65, t85))
    {
      added, removed := {}, {};
      var i := 0;
      while i < |markers|
        invariant 0 <= i <= |markers|
        invariant added == set j: nat | j < i && Shows(markers[j].options, t65, t85) && j !in old(onMap)
        invariant removed == set j: nat | j < i && !Shows(markers[j].options, t65, t85) && j in old(onMap)
        invariant onMap == (old(onMap) - removed) + added
      {
        if Shows(markers[i].options, t65, t85) {
          if i !in onMap {
            onMap := onMap + {i};
            added := added + {i};
          }
        } else {
          if i in onMap {
            onMap := onMap - {i};
            removed := removed + {i};
          }
        }
        i := i + 1;
      }
    }
  }
}
