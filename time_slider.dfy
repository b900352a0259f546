/** The map with the years-ahead slider: the predicted layers built from a left merge of each
    predictions file with the actual data, the rule the page's script uses to show or hide a
    marker, and the year slider that puts exactly one group of markers on the map. */
module TimeSlider {
  import opened Cells
  import opened Frames
  import opened MapLayers
  import Trend

  // ----- The left merge on the geographic name -----

  /** A predictions row joined with the 65+ percentage of one actual row of the same name,
      or with a missing value when no actual row has that name. */
  datatype MergedRow = MergedRow(prediction: Trend.Prediction, actual65: Option<real>)

  function PlotName(r: PlotRow): string
  {
    r.name
  }

  /** The actual rows sharing a name, in file order. */
  function MatchesOf(name: string, actual: seq<PlotRow>): (m: seq<PlotRow>)
    ensures forall a :: a in m <==> a in actual && a.name == name
  {
    Filter(actual, (a: PlotRow) => a.name == name)
  }

  /** A merged row carries the 65+ value of an actual row with its name, or a missing value
      when no actual row has that name. */
  predicate Joined(x: MergedRow, actual: seq<PlotRow>)
  {
    match x.actual65
    case None => forall a :: a in actual ==> a.name != x.prediction.row.name
    case Some(v) => exists a :: a in actual && a.name == x.prediction.row.name && a.percent65 == v
  }

  /** The number of merged rows a predictions row produces: one per actual row of its
      name, or a single row when there is none. */
  function RowsFor(p: Trend.Prediction, actual: seq<PlotRow>): nat
  {
    var n := |MatchesOf(p.row.name, actual)|;
    if n == 0 then 1 else n
  }


  /** The merged rows one predictions row produces: one per actual row of its name, in the
      actual table's order and carrying that row's 65+ value, or one row with a missing value. */
  function MergeOne(p: Trend.Prediction, actual: seq<PlotRow>): seq<MergedRow>
  {
    var m := MatchesOf(p.row.name, actual);
    if m == [] then [MergedRow(p, None)]
    else seq(|m|, i requires 0 <= i < |m| => MergedRow(p, Some(m[i].percent65)))
  }

  /** What each merged row of one predictions row holds: row i carries the i-th actual row of
      the name, in the actual table's order, and an unmatched name gives one row with a
      missing value; every row is `Joined`. */
  lemma MergeOneRows(p: Trend.Prediction, actual: seq<PlotRow>)
    ensures var out, m := MergeOne(p, actual), MatchesOf(p.row.name, actual);
      && |out| == RowsFor(p, actual)
      && (m == [] ==> out == [MergedRow(p, None)])
      && (forall i :: 0 <= i < |m| ==> out[i] == MergedRow(p, Some(m[i].percent65)))
      && (forall x :: x in out ==> x.prediction == p && Joined(x, actual))
  {
    var out, m := MergeOne(p, actual), MatchesOf(p.row.name, actual);
    forall x | x in out ensures x.prediction == p && Joined(x, actual) {
      if m != [] {
        var i :| 0 <= i < |m| && out[i] == x;
        assert m[i] in m;
      }
    }
  }

  /** `pd.merge(predictions, actual[[name, col65]], on=name, how='left')`: predictions rows in
      file order, each followed through every actual row with its name. */
  function LeftMerge(preds: seq<Trend.Prediction>, actual: seq<PlotRow>): (out: seq<MergedRow>)
    ensures |out| >= |preds|
  {
    if preds == [] then [] else MergeOne(preds[0], actual) + LeftMerge(preds[1..], actual)
  }

  /** The number of merged rows a predictions table produces: the total of `RowsFor` over its
      rows. */
  function MergedCount(preds: seq<Trend.Prediction>, actual: seq<PlotRow>): nat
  {
    if preds == [] then 0 else RowsFor(preds[0], actual) + MergedCount(preds[1..], actual)
  }

  lemma MergeOneLength(p: Trend.Prediction, actual: seq<PlotRow>)
    ensures |MergeOne(p, actual)| == RowsFor(p, actual)
  {
  }

  /** The merge has `MergedCount` rows: for each predictions row, one per actual row of its
      name, or one when there is none. */
  lemma {:induction false} LeftMergeCount(preds: seq<Trend.Prediction>, actual: seq<PlotRow>)
    ensures |LeftMerge(preds, actual)| == MergedCount(preds, actual)
  {
    if preds != [] {
      LeftMergeCount(preds[1..], actual);
      MergeOneLength(preds[0], actual);
    }
  }

  /** The layout of the merge: merged row k of predictions row i (one of its `RowsFor` rows)
      sits right after the rows of the earlier predictions. */
  lemma LeftMergeAt(preds: seq<Trend.Prediction>, actual: seq<PlotRow>, i: nat, k: nat)
    requires i < |preds| && k < RowsFor(preds[i], actual)
    ensures k < |MergeOne(preds[i], actual)|
    ensures MergedCount(preds[..i], actual) + k < |LeftMerge(preds, actual)|
    ensures LeftMerge(preds, actual)[MergedCount(preds[..i], actual) + k] == MergeOne(preds[i], actual)[k]
  {
    var before, one, after := LeftMerge(preds[..i], actual), MergeOne(preds[i], actual), LeftMerge(preds[i + 1..], actual);
    LeftMergeSplit(preds, actual, i);
    LeftMergeCount(preds[..i], actual);
    MergeOneLength(preds[i], actual);
    IndexInMiddle(before, one, after, k);
  }

  lemma IndexInMiddle<T>(a: seq<T>, b: seq<T>, c: seq<T>, k: nat)
    requires k < |b|
    ensures |a| + k < |a + (b + c)| && (a + (b + c))[|a| + k] == b[k]
  {
  }

  /** The merge is the rows of the predictions before row i, then row i's, then the rest. */
  lemma LeftMergeSplit(preds: seq<Trend.Prediction>, actual: seq<PlotRow>, i: nat)
    requires i < |preds|
    ensures LeftMerge(preds, actual) ==
      LeftMerge(preds[..i], actual) + (MergeOne(preds[i], actual) + LeftMerge(preds[i + 1..], actual))
  {
    var from := preds[i..];
    assert preds[..i] + from == preds;
    LeftMergeAppend(preds[..i], from, actual);
    assert from[0] == preds[i] && from[1..] == preds[i + 1..];
  }

  /** Merging two predictions tables one after the other is merging them together. */
  lemma {:induction false} LeftMergeAppend(a: seq<Trend.Prediction>, b: seq<Trend.Prediction>, actual: seq<PlotRow>)
    ensures LeftMerge(a + b, actual) == LeftMerge(a, actual) + LeftMerge(b, actual)
  {
    if a == [] {
      assert a + b == b;
    } else {
      assert (a + b)[0] == a[0] && (a + b)[1..] == a[1..] + b;
      LeftMergeAppend(a[1..], b, actual);
      var head := MergeOne(a[0], actual);
      assert head + (LeftMerge(a[1..], actual) + LeftMerge(b, actual)) ==
        (head + LeftMerge(a[1..], actual)) + LeftMerge(b, actual);
    }
  }

  /** The merge loses no predictions row and invents none: each predictions row appears in
      some merged row, and every merged row is a predictions row joined to an actual row of
      its name, or to a missing value when there is none. */
  lemma {:induction false} LeftMergeKeepsRows(preds: seq<Trend.Prediction>, actual: seq<PlotRow>)
    ensures var out := LeftMerge(preds, actual);
      && (forall i :: 0 <= i < |preds| ==> exists x :: x in out && x.prediction == preds[i])
      && (forall x :: x in out ==> x.prediction in preds && Joined(x, actual))
  {
    if preds != [] {
      LeftMergeKeepsRows(preds[1..], actual);
      MergeOneRows(preds[0], actual);
      var head := MergeOne(preds[0], actual);
      var rest := LeftMerge(preds[1..], actual);
      assert LeftMerge(preds, actual) == head + rest;
      assert head[0] in head + rest;
      forall i | 1 <= i < |preds| ensures exists x :: x in head + rest && x.prediction == preds[i] {
        assert preds[i] == preds[1..][i - 1];
        var x :| x in rest && x.prediction == preds[1..][i - 1];
        assert x in head + rest;
      }
      forall x | x in rest ensures x.prediction in preds {
        assert x.prediction in preds[1..];
      }
    }
  }

  /** With at most one actual row per name, a name matches nothing or a single row. */
  lemma {:induction false} UniqueMatch(name: string, actual: seq<PlotRow>)
    requires UniqueKeys(actual, PlotName)
    ensures |MatchesOf(name, actual)| <= 1
  {
    if actual != [] {
      var rest := actual[1..];
      assert UniqueKeys(rest, PlotName) by {
        forall i, j | 0 <= i < j < |rest| ensures rest[i].name != rest[j].name {
          assert rest[i] == actual[i + 1] && rest[j] == actual[j + 1];
        }
      }
      UniqueMatch(name, rest);
      if actual[0].name == name {
        assert forall a :: a in rest ==> a.name != name by {
          forall a | a in rest ensures a.name != name {
            var k :| 0 <= k < |rest| && rest[k] == a;
            assert actual[k + 1] == a;
          }
        }
        var ms := MatchesOf(name, rest);
        assert |ms| > 0 ==> ms[0] in rest && ms[0].name == name;
      }
    }
  }

  /** When the actual names are unique the merge keeps the predictions row for row: row i
      carries prediction i and the 65+ value of the actual row with its name, if any. */
  lemma {:induction false} LeftMergeUnique(preds: seq<Trend.Prediction>, actual: seq<PlotRow>)
    requires UniqueKeys(actual, PlotName)
    ensures |LeftMerge(preds, actual)| == |preds|
    ensures forall i :: 0 <= i < |preds| ==>
      var x := LeftMerge(preds, actual)[i];
      x.prediction == preds[i] &&
      (x.actual65.None? <==> forall a :: a in actual ==> a.name != preds[i].row.name) &&
      (x.actual65.Some? ==> exists a :: a in actual && a.name == preds[i].row.name && a.percent65 == x.actual65.value)
  {
    var out := LeftMerge(preds, actual);
    LeftMergeRowForRow(preds, actual);
    LeftMergeKeepsRows(preds, actual);
    forall i | 0 <= i < |preds|
      ensures out[i].actual65.None? <==> forall a :: a in actual ==> a.name != preds[i].row.name
      ensures out[i].actual65.Some? ==>
        exists a :: a in actual && a.name == preds[i].row.name && a.percent65 == out[i].actual65.value
    {
      assert out[i] in out && Joined(out[i], actual);
    }
  }

  /** With unique actual names every predictions row gives exactly one merged row. */
  lemma LeftMergeRowForRow(preds: seq<Trend.Prediction>, actual: seq<PlotRow>)
    requires UniqueKeys(actual, PlotName)
    ensures |LeftMerge(preds, actual)| == |preds|
    ensures forall i :: 0 <= i < |preds| ==> LeftMerge(preds, actual)[i].prediction == preds[i]
  {
    LeftMergeCount(preds, actual);
    UniqueCount(preds, actual);
    forall i | 0 <= i < |preds| ensures LeftMerge(preds, actual)[i].prediction == preds[i] {
      UniqueCount(preds[..i], actual);
      MergeOneUnique(preds[i], actual);
      MergeOneLength(preds[i], actual);
      LeftMergeAt(preds, actual, i, 0);
    }
  }

  /** With unique actual names every predictions row counts for one merged row. */
  lemma {:induction false} UniqueCount(preds: seq<Trend.Prediction>, actual: seq<PlotRow>)
    requires UniqueKeys(actual, PlotName)
    ensures MergedCount(preds, actual) == |preds|
  {
    if preds != [] {
      UniqueCount(preds[1..], actual);
      UniqueMatch(preds[0].row.name, actual);
    }
  }

  /** With unique actual names one predictions row gives one merged row. */
  lemma MergeOneUnique(p: Trend.Prediction, actual: seq<PlotRow>)
    requires UniqueKeys(actual, PlotName)
    ensures |MergeOne(p, actual)| == 1 && MergeOne(p, actual)[0].prediction == p
  {
    UniqueMatch(p.row.name, actual);
    assert MergeOne(p, actual)[0] in MergeOne(p, actual);
  }

  /** Two actual rows sharing a name turn one predictions row into two predicted markers:
      the single-year file is not de-duplicated, so the merge can repeat rows. */
  lemma RepeatedNameDuplicates(p: Trend.Prediction, a: PlotRow, b: PlotRow)
    requires a.name == p.row.name && b.name == p.row.name
    ensures LeftMerge([p], [a, b]) == [MergedRow(p, Some(a.percent65)), MergedRow(p, Some(b.percent65))]
  {
    var m := MatchesOf(p.row.name, [a, b]);
    assert [a, b][1..] == [b];
    assert m == [a, b];
    assert LeftMerge([p], [a, b]) == MergeOne(p, [a, b]) + LeftMerge([], [a, b]);
  }

  /** The predicted marker loop for one year: one circle marker per merged row, coloured by
      the clamped predicted 65+ value and carrying the three values the script reads. */
  method BuildPredictedMarkers(merged: seq<MergedRow>) returns (markers: seq<CircleMarker>)
    ensures |markers| == |merged|
    ensures forall i :: 0 <= i < |merged| ==>
      var p := merged[i].prediction;
      markers[i].latitude == p.row.latitude && markers[i].longitude == p.row.longitude &&
      VMin <= markers[i].colourValue <= VMax &&
      markers[i].colourValue == HeatWeight(p.predicted65) &&
      markers[i].options == Predicted(p.predicted65, p.predicted85, merged[i].actual65)
  {
    markers := [];
    var i := 0;
    while i < |merged|
      invariant 0 <= i <= |merged|
      invariant |markers| == i
      invariant forall j :: 0 <= j < i ==>
        var p := merged[j].prediction;
        markers[j] == CircleMarker(p.row.latitude, p.row.longitude, HeatWeight(p.predicted65),
          Predicted(p.predicted65, p.predicted85, merged[j].actual65))
    {
      var p := merged[i].prediction;
      markers := markers + [CircleMarker(p.row.latitude, p.row.longitude, HeatWeight(p.predicted65),
        Predicted(p.predicted65, p.predicted85, merged[i].actual65))];
      i := i + 1;
    }
  }

  // ----- The show/hide rule -----

  /** The "Predicted Filter" drop-down. */
  datatype PredFilter = All | Increase | Decrease

  /** Whether the script styles a marker as visible. A missing actual value compares false
      against anything, so the increase and decrease modes hide such markers. */
  predicate Visible(options: MarkerOptions, t65: real, t85: real, mode: PredFilter)
  {
    match options
    case Actual(p65, p85) => p65 >= t65 && p85 >= t85
    case Predicted(v65, v85, actual65) =>
      v65 >= t65 && v85 >= t85 &&
      match mode
      case All => true
      case Increase => actual65.Some? && v65 > actual65.value
      case Decrease => actual65.Some? && v65 < actual65.value
  }

  /** An actual-data marker is visible exactly when both percentages reach their thresholds,
      whatever the drop-down says. */
  lemma ActualVisibleIff(p65: real, p85: real, t65: real, t85: real, mode: PredFilter)
    ensures Visible(Actual(p65, p85), t65, t85, mode) <==> p65 >= t65 && p85 >= t85
  {
  }

  /** A predicted marker needs the same thresholds; "increase" also needs a rise over the
      actual value, "decrease" a fall, and "all" nothing more. */
  lemma PredictedVisibleIff(v65: real, v85: real, actual65: Option<real>, t65: real, t85: real)
    ensures Visible(Predicted(v65, v85, actual65), t65, t85, All) <==> v65 >= t65 && v85 >= t85
    ensures Visible(Predicted(v65, v85, actual65), t65, t85, Increase) <==>
      v65 >= t65 && v85 >= t85 && actual65.Some? && v65 > actual65.value
    ensures Visible(Predicted(v65, v85, actual65), t65, t85, Decrease) <==>
      v65 >= t65 && v85 >= t85 && actual65.Some? && v65 < actual65.value
  {
  }

  /** A marker shown under "increase" or "decrease" is shown under "all", and never under both. */
  lemma ModesNarrowAll(options: MarkerOptions, t65: real, t85: real)
    ensures Visible(options, t65, t85, Increase) ==> Visible(options, t65, t85, All)
    ensures Visible(options, t65, t85, Decrease) ==> Visible(options, t65, t85, All)
    ensures options.Predicted? ==> !(Visible(options, t65, t85, Increase) && Visible(options, t65, t85, Decrease))
  {
  }

  /** Raising a threshold can only hide markers. */
  lemma VisibleMonotone(options: MarkerOptions, t65: real, t85: real, u65: real, u85: real, mode: PredFilter)
    requires t65 <= u65 && t85 <= u85
    ensures Visible(options, u65, u85, mode) ==> Visible(options, t65, t85, mode)
  {
  }

  /** A predicted marker without an actual value stays visible only under "all". */
  lemma UnmatchedOnlyUnderAll(v65: real, v85: real, t65: real, t85: real)
    ensures !Visible(Predicted(v65, v85, None), t65, t85, Increase)
    ensures !Visible(Predicted(v65, v85, None), t65, t85, Decrease)
  {
  }

  /** The visibility flag of every marker of a group. */
  function Flags(markers: seq<CircleMarker>, t65: real, t85: real, mode: PredFilter): (flags: seq<bool>)
    ensures |flags| == |markers|
  {
    seq(|markers|, i requires 0 <= i < |markers| => Visible(markers[i].options, t65, t85, mode))
  }

  // ----- The groups on the map and the year slider -----

  /** The group of actual markers, or the predicted group for `index + 1` years ahead. */
  datatype Group = ActualGroup | PredictedGroup(index: nat)

  /** A layer of the map: one of the marker groups, or any other layer (tiles, heat map,
      search layer, facilities), named by an identifier. */
  datatype Layer = GroupLayer(group: Group) | OtherLayer(id: nat)

  /** The number of predicted groups: one per year ahead, 1 to 10. */
  const YearsAhead: nat := 10

  predicate IsGroup(g: Group)
  {
    g.PredictedGroup? ==> g.index < YearsAhead
  }

  /** The group the year slider selects: year 0 is the actual data, year k the k-th predicted group. */
  function GroupFor(year: int): (g: Group)
    requires 0 <= year <= YearsAhead
    ensures IsGroup(g)
    ensures year == 0 <==> g == ActualGroup
    ensures year > 0 ==> g == PredictedGroup(year - 1)
  {
    if year == 0 then ActualGroup else PredictedGroup(year - 1)
  }

  /** The layers of the first `k` predicted groups. */
  function PredictedLayers(k: nat): set<Layer>
  {
    set j | 0 <= j < k :: GroupLayer(PredictedGroup(j))
  }

  /** The eleven layers the slider chooses from. */
  function GroupLayers(): set<Layer>
  {
    {GroupLayer(ActualGroup)} + PredictedLayers(YearsAhead)
  }

  lemma GroupLayersAreGroups(l: Layer)
    ensures l in GroupLayers() <==> l.GroupLayer? && IsGroup(l.group)
  {
    if l.GroupLayer? && l.group.PredictedGroup? && l.group.index < YearsAhead {
      assert l == GroupLayer(PredictedGroup(l.group.index));
    }
  }

  /** The page after loading: the marker groups, the style of each of their markers, the set
      of layers on the map and the group the filters apply to. */
  class SliderMap {
    const actualMarkers: seq<CircleMarker>
    const predictedMarkers: seq<seq<CircleMarker>>
    var onMap: set<Layer>
    var current: Group
    var shown: map<Group, seq<bool>>

    function MarkersOf(g: Group): seq<CircleMarker>
      reads this
      requires Valid() && IsGroup(g)
    {
      if g == ActualGroup then actualMarkers else predictedMarkers[g.index]
    }

    ghost predicate Valid()
      reads this
    {
      && |predictedMarkers| == YearsAhead
      && IsGroup(current)
      && (forall g :: IsGroup(g) ==> g in shown && |shown[g]| == (if g == ActualGroup then |actualMarkers| else |predictedMarkers[g.index]|))
      && (forall l :: l in onMap && l.GroupLayer? ==> IsGroup(l.group))
    }

    /** The map the script finds when the page loads: every group added and every marker drawn
        visible, with the actual group current. */
    constructor (actual: seq<CircleMarker>, predicted: seq<seq<CircleMarker>>, others: set<nat>)
      requires |predicted| == YearsAhead
      ensures Valid()
      ensures actualMarkers == actual && predictedMarkers == predicted
      ensures onMap == GroupLayers() + set id | id in others :: OtherLayer(id)
      ensures current == ActualGroup
      ensures forall g :: IsGroup(g) ==> forall i :: 0 <= i < |shown[g]| ==> shown[g][i]
    {
      actualMarkers := actual;
      predictedMarkers := predicted;
      onMap := GroupLayers() + set id | id in others :: OtherLayer(id);
      current := ActualGroup;
      var all: map<Group, seq<bool>> := map[ActualGroup := seq(|actual|, _ => true)];
      var k := 0;
      while k < YearsAhead
        invariant 0 <= k <= YearsAhead
        invariant forall g :: g in all <==> g == ActualGroup || (g.PredictedGroup? && g.index < k)
        invariant all[ActualGroup] == seq(|actual|, _ => true)
        invariant forall j :: 0 <= j < k ==> all[PredictedGroup(j)] == seq(|predicted[j]|, _ => true)
      {
        all := all[PredictedGroup(k) := seq(|predicted[k]|, _ => true)];
        k := k + 1;
      }
      shown := all;
      new;
      forall l | l in onMap && l.GroupLayer? ensures IsGroup(l.group) {
        GroupLayersAreGroups(l);
      }
    }

    /** `updateMarkers`: restyles every marker of the current group by the visibility rule. */
    method UpdateMarkers(t65: real, t85: real, mode: PredFilter)
      requires Valid()
      modifies this
      ensures Valid()
      ensures onMap == old(onMap) && current == old(current)
      ensures shown == old(shown)[current := Flags(MarkersOf(current), t65, t85, mode)]
      ensures forall i :: 0 <= i < |MarkersOf(current)| ==>
        (shown[current][i] <==> Visible(MarkersOf(current)[i].options, t65, t85, mode))
    {
      var markers := MarkersOf(current);
      var flags: seq<bool> := [];
      var i := 0;
      while i < |markers|
        invariant 0 <= i <= |markers|
        invariant flags == Flags(markers, t65, t85, mode)[..i]
      {
        flags := flags + [Visible(markers[i].options, t65, t85, mode)];
        i := i + 1;
      }
      assert flags == Flags(markers, t65, t85, mode);
      shown := shown[current := flags];
    }

    /** `updateActiveGroup`: takes every marker group off the map, puts back the one the
        year selects, makes it current and restyles it. */
    method UpdateActiveGroup(year: int, t65: real, t85: real, mode: PredFilter)
      requires Valid()
      requires 0 <= year <= YearsAhead
      modifies this
      ensures Valid()
      ensures current == GroupFor(year)
      ensures onMap == (old(onMap) - GroupLayers()) + {GroupLayer(GroupFor(year))}
      ensures forall g :: GroupLayer(g) in onMap <==> g == GroupFor(year)
      ensures forall id :: OtherLayer(id) in onMap <==> OtherLayer(id) in old(onMap)
      ensures shown == old(shown)[current := Flags(MarkersOf(current), t65, t85, mode)]
    {
      if GroupLayer(ActualGroup) in onMap {
        onMap := onMap - {GroupLayer(ActualGroup)};
      }
      var k := 0;
      while k < YearsAhead
        invariant 0 <= k <= YearsAhead
        invariant Valid()
        invariant shown == old(shown) && current == old(current)
        invariant onMap == old(onMap) - {GroupLayer(ActualGroup)} - PredictedLayers(k)
      {
        if GroupLayer(PredictedGroup(k)) in onMap {
          onMap := onMap - {GroupLayer(PredictedGroup(k))};
        }
        assert PredictedLayers(k + 1) == PredictedLayers(k) + {GroupLayer(PredictedGroup(k))};
        k := k + 1;
      }
      assert onMap == old(onMap) - GroupLayers();
      var g := GroupFor(year);
      onMap := onMap + {GroupLayer(g)};
      current := g;
      forall h ensures GroupLayer(h) in onMap <==> h == g {
        GroupLayersAreGroups(GroupLayer(h));
      }
      UpdateMarkers(t65, t85, mode);
    }
  }

  /** The page's start-up: the saved map, then `updateActiveGroup()` and `updateMarkers()`
      with the sliders at their initial values (both thresholds 0, year 0, mode "all").
      Only the actual group is left on the map, and its markers are styled by the rule. */
  method Load(actual: seq<CircleMarker>, predicted: seq<seq<CircleMarker>>, others: set<nat>)
    returns (page: SliderMap)
    requires |predicted| == YearsAhead
    ensures fresh(page) && page.Valid()
    ensures page.actualMarkers == actual && page.predictedMarkers == predicted
    ensures page.current == ActualGroup
    ensures forall g :: GroupLayer(g) in page.onMap <==> g == ActualGroup
    ensures forall id :: OtherLayer(id) in page.onMap <==> id in others
    ensures page.shown[ActualGroup] == Flags(actual, 0.0, 0.0, All)
    ensures forall i :: 0 <= i < |actual| ==>
      (page.shown[ActualGroup][i] <==> Visible(actual[i].options, 0.0, 0.0, All))
    ensures forall k :: 0 <= k < YearsAhead ==> forall i :: 0 <= i < |page.shown[PredictedGroup(k)]| ==>
      page.shown[PredictedGroup(k)][i]
  {
    page := new SliderMap(actual, predicted, others);
    page.UpdateActiveGroup(0, 0.0, 0.0, All);
    page.UpdateMarkers(0.0, 0.0, All);
  }
}
