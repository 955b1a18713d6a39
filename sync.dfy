/**
 * The measurement loop of `sync()`: it turns the fetched measurement groups
 * into write calls on a fresh weight FIT encoder, picks the latest weight
 * reading for TrainerRoad, and decides what is done with the finished file.
 *
 * The Withings, Garmin Connect and TrainerRoad clients are not modelled: what
 * the loop gets from them (the groups, the height, whether an upload was
 * accepted) is a parameter, and what it asks of them is an `Action`.
 */
module Sync {
  import opened Wrappers
  import opened Measurements
  import opened FitEncoder

  /** The timestamp and weight of the reading chosen as the "last weight". */
  datatype Reading = Reading(dt: int, weight: real)

  /** What happens to the finished file and the last weight after the loop. */
  datatype Action =
    | WriteToStdout(file: seq<Event>)
    | SetTrainerRoadWeight(weight: real)
    | UploadToGarmin(file: seq<Event>)
    | SaveLastSync

  // ---------------------------------------------------------------------
  // Specification of the events the loop writes

  /** The weight-scale values written for a group that has a weight. */
  function ScaleRecord(g: Group, height: Option<real>): (v: ScaleValues)
    requires g.weight.Some?
  {
    var w := g.weight.value;
    ScaleValues(w, g.fatRatio, PercentHydration(g.hydration, w), g.boneMass, g.muscleMass, Bmi(w, height))
  }

  /** The events one group contributes: none without a weight, else a device-info and a weight-scale record. */
  function GroupEvents(g: Group, height: Option<real>): (events: seq<Event>)
  {
    if g.weight.None? then [] else [DeviceInfo(g.dt), WeightScale(g.dt, ScaleRecord(g, height))]
  }

  /** The events the loop writes for `gs`, group by group. */
  function RecordEvents(gs: seq<Group>, height: Option<real>): (events: seq<Event>)
  {
    if gs == [] then []
    else RecordEvents(gs[..|gs| - 1], height) + GroupEvents(gs[|gs| - 1], height)
  }

  /** The groups that carry a weight, in input order. */
  function Kept(gs: seq<Group>): (kept: seq<Group>)
  {
    if gs == [] then []
    else Kept(gs[..|gs| - 1]) + (if gs[|gs| - 1].weight.Some? then [gs[|gs| - 1]] else [])
  }

  /** The whole encoder log of a run that reached the loop: file-level metadata, then the records. */
  function FileEvents(gs: seq<Group>, height: Option<real>): (events: seq<Event>)
  {
    [FileInfo, FileCreator] + RecordEvents(gs, height)
  }

  // ---------------------------------------------------------------------
  // Specification of the last-weight scan

  /** The reading the scan keeps: a later group replaces it only with a strictly greater timestamp. */
  function Last(gs: seq<Group>): (last: Option<Reading>)
  {
    if gs == [] then None
    else
      var prev := Last(gs[..|gs| - 1]);
      var g := gs[|gs| - 1];
      if g.weight.None? then prev
      else if prev.None? || g.dt > prev.value.dt then Some(Reading(g.dt, g.weight.value))
      else prev
  }

  /** Group `i` has a weight, no weight-bearing group is later in time, and none before it is as late. */
  ghost predicate IsFirstMax(gs: seq<Group>, i: int)
  {
    0 <= i < |gs| && gs[i].weight.Some? &&
    (forall j :: 0 <= j < |gs| && gs[j].weight.Some? ==> gs[j].dt <= gs[i].dt) &&
    (forall j :: 0 <= j < i && gs[j].weight.Some? ==> gs[j].dt < gs[i].dt)
  }

  // ---------------------------------------------------------------------
  // Lemmas about the events

  /** Writing the events of `a` and then those of `b` is writing those of `a + b`. */
  lemma {:induction false} RecordEventsAppend(a: seq<Group>, b: seq<Group>, height: Option<real>)
    ensures RecordEvents(a + b, height) == RecordEvents(a, height) + RecordEvents(b, height)
    decreases |b|
  {
    if b == [] {
      assert a + b == a;
    } else {
      var b' := b[..|b| - 1];
      assert (a + b)[..|a + b| - 1] == a + b';
      assert (a + b)[|a + b| - 1] == b[|b| - 1];
      RecordEventsAppend(a, b', height);
    }
  }

  /** A group without a weight writes nothing, and the groups after it are written as if it were absent. */
  lemma WeightlessGroupWritesNothing(a: seq<Group>, g: Group, b: seq<Group>, height: Option<real>)
    requires g.weight.None?
    ensures RecordEvents(a + [g] + b, height) == RecordEvents(a + b, height)
  {
    RecordEventsAppend(a + [g], b, height);
    RecordEventsAppend(a, b, height);
    assert (a + [g])[..|a + [g]| - 1] == a;
  }

  /**
   * Each group with a weight writes exactly one device-info event followed by
   * one weight-scale event with the same timestamp, and the pairs come in
   * input order.
   */
  lemma {:induction false} RecordEventsPairs(gs: seq<Group>, height: Option<real>)
    ensures |RecordEvents(gs, height)| == 2 * |Kept(gs)|
    ensures forall k :: 0 <= k < |Kept(gs)| ==>
      Kept(gs)[k].weight.Some? &&
      RecordEvents(gs, height)[2 * k] == DeviceInfo(Kept(gs)[k].dt) &&
      RecordEvents(gs, height)[2 * k + 1] == WeightScale(Kept(gs)[k].dt, ScaleRecord(Kept(gs)[k], height))
  {
    if gs != [] {
      RecordEventsPairs(gs[..|gs| - 1], height);
    }
  }

  /**
   * The file-level events come first, file info then file creator, and
   * every later event is a per-group record.
   */
  lemma FileEventsOrder(gs: seq<Group>, height: Option<real>)
    ensures |FileEvents(gs, height)| == 2 + 2 * |Kept(gs)|
    ensures FileEvents(gs, height)[0] == FileInfo && FileEvents(gs, height)[1] == FileCreator
    ensures forall k :: 2 <= k < |FileEvents(gs, height)| ==>
      FileEvents(gs, height)[k].DeviceInfo? || FileEvents(gs, height)[k].WeightScale?
  {
    RecordEventsPairs(gs, height);
    var r := RecordEvents(gs, height);
    forall k | 2 <= k < |FileEvents(gs, height)|
      ensures FileEvents(gs, height)[k].DeviceInfo? || FileEvents(gs, height)[k].WeightScale?
    {
      assert FileEvents(gs, height)[k] == r[k - 2];
      var m := (k - 2) / 2;
      assert m < |Kept(gs)|;
      if k - 2 == 2 * m {
        assert r[2 * m] == DeviceInfo(Kept(gs)[m].dt);
      } else {
        assert k - 2 == 2 * m + 1;
        assert r[2 * m + 1] == WeightScale(Kept(gs)[m].dt, ScaleRecord(Kept(gs)[m], height));
      }
    }
  }

  /**
   * The kept groups are exactly the weight-bearing groups of the input, each
   * as many times as it occurs there, none added and none dropped.
   */
  lemma {:induction false} KeptIsWeightBearing(gs: seq<Group>)
    ensures forall g :: g in Kept(gs) <==> g in gs && g.weight.Some?
    ensures forall g :: multiset(Kept(gs))[g] == if g.weight.Some? then multiset(gs)[g] else 0
  {
    if gs != [] {
      var init := gs[..|gs| - 1];
      KeptIsWeightBearing(init);
      assert gs == init + [gs[|gs| - 1]];
    }
  }

  /** Filtering runs of groups one after the other keeps their order: the kept groups of `a + b` are those of `a`, then those of `b`. */
  lemma {:induction false} KeptAppend(a: seq<Group>, b: seq<Group>)
    ensures Kept(a + b) == Kept(a) + Kept(b)
    decreases |b|
  {
    if b == [] {
      assert a + b == a;
    } else {
      var b' := b[..|b| - 1];
      assert (a + b)[..|a + b| - 1] == a + b';
      assert (a + b)[|a + b| - 1] == b[|b| - 1];
      KeptAppend(a, b');
    }
  }

  // ---------------------------------------------------------------------
  // Lemmas about the last-weight scan

  /** The scan finds nothing exactly when no group has a weight. */
  lemma {:induction false} LastNoneIffWeightless(gs: seq<Group>)
    ensures Last(gs).None? <==> forall i :: 0 <= i < |gs| ==> gs[i].weight.None?
  {
    if gs != [] {
      var init := gs[..|gs| - 1];
      LastNoneIffWeightless(init);
      assert forall i :: 0 <= i < |init| ==> init[i] == gs[i];
    }
  }

  /** A weight-bearing group strictly later than every earlier weight-bearing group is the first maximum. */
  lemma FirstMaxAtNew(gs: seq<Group>)
    requires gs != [] && gs[|gs| - 1].weight.Some?
    requires forall j :: 0 <= j < |gs| - 1 && gs[j].weight.Some? ==> gs[j].dt < gs[|gs| - 1].dt
    ensures IsFirstMax(gs, |gs| - 1)
  {
  }

  /** Appending a weightless group, or one no later than the first maximum, keeps that maximum. */
  lemma FirstMaxKept(gs: seq<Group>, i: int)
    requires gs != [] && IsFirstMax(gs[..|gs| - 1], i)
    requires gs[|gs| - 1].weight.Some? ==> gs[|gs| - 1].dt <= gs[i].dt
    ensures IsFirstMax(gs, i)
  {
  }

  /** The scan keeps the first group that reaches the greatest timestamp among weight-bearing groups. */
  lemma {:induction false} LastIsFirstMax(gs: seq<Group>)
    ensures Last(gs).Some? ==>
      exists i :: IsFirstMax(gs, i) && Last(gs).value == Reading(gs[i].dt, gs[i].weight.value)
  {
    if gs != [] {
      var n := |gs| - 1;
      var init := gs[..n];
      var g := gs[n];
      LastIsFirstMax(init);
      var prev := Last(init);
      if g.weight.Some? && (prev.None? || g.dt > prev.value.dt) {
        if prev.None? {
          LastNoneIffWeightless(init);
          assert forall j :: 0 <= j < n ==> init[j] == gs[j];
        } else {
          var i :| IsFirstMax(init, i) && prev.value == Reading(init[i].dt, init[i].weight.value);
          assert forall j :: 0 <= j < n ==> init[j] == gs[j];
        }
        FirstMaxAtNew(gs);
        assert Last(gs).value == Reading(gs[n].dt, gs[n].weight.value);
      } else if prev.Some? {
        var i :| IsFirstMax(init, i) && prev.value == Reading(init[i].dt, init[i].weight.value);
        FirstMaxKept(gs, i);
        assert Last(gs).value == Reading(gs[i].dt, gs[i].weight.value);
      }
    }
  }

  /** There is at most one first maximum. */
  lemma FirstMaxUnique(gs: seq<Group>, i: int, j: int)
    requires IsFirstMax(gs, i) && IsFirstMax(gs, j)
    ensures i == j
  {
  }

  /** Conversely, whichever group is the first maximum is the one the scan reports. */
  lemma LastFromFirstMax(gs: seq<Group>, i: int)
    requires IsFirstMax(gs, i)
    ensures Last(gs) == Some(Reading(gs[i].dt, gs[i].weight.value))
  {
    LastNoneIffWeightless(gs);
    LastIsFirstMax(gs);
    var k :| IsFirstMax(gs, k) && Last(gs).value == Reading(gs[k].dt, gs[k].weight.value);
    FirstMaxUnique(gs, i, k);
  }

  /** The greatest timestamp wins, not the last one processed. */
  lemma LastWeightExample()
    ensures Last([Group(100, Some(70.0), None, None, None, None),
                  Group(200, Some(71.0), None, None, None, None),
                  Group(150, Some(72.0), None, None, None, None)]) == Some(Reading(200, 71.0))
  {
    var gs := [Group(100, Some(70.0), None, None, None, None),
               Group(200, Some(71.0), None, None, None, None),
               Group(150, Some(72.0), None, None, None, None)];
    assert gs[..2][..1] == gs[..1] && gs[..1][..0] == [];
    assert Last(gs[..1]) == Some(Reading(100, 70.0));
    assert Last(gs[..2]) == Some(Reading(200, 71.0));
  }

  /**
   * A height of 1.75 m and one group weighing 70 kg with 35 kg of water give
   * one device-info event and one weight-scale record with a BMI, 50 %
   * hydration and no fat, bone or muscle value.
   */
  lemma SingleRecordExample(t: int)
    ensures FileEvents([Group(t, Some(70.0), None, None, Some(35.0), None)], Some(1.75)) ==
      [FileInfo, FileCreator, DeviceInfo(t),
       WeightScale(t, ScaleValues(70.0, None, Some(50.0), None, None, Some(70.0 / (1.75 * 1.75))))]
  {
    var g := Group(t, Some(70.0), None, None, Some(35.0), None);
    assert [g][..0] == [];
    assert PercentHydration(Some(35.0), 70.0) == Some(50.0);
    assert Bmi(70.0, Some(1.75)) == Some(70.0 / (1.75 * 1.75));
    assert RecordEvents([g], Some(1.75)) == GroupEvents(g, Some(1.75));
  }

  // ---------------------------------------------------------------------
  // After the loop

  /**
   * What is done with a finished file when there is a last weight and the
   * run is not in no-upload mode: TrainerRoad gets the last weight when a
   * TrainerRoad user is set, then Garmin Connect gets the file when a Garmin
   * user is set, and the sync time is saved only when Garmin accepted the
   * file and no start date was given.
   */
  function UploadSteps(file: seq<Event>, lastWeight: real,
                       trainerRoadUser: bool, garminUser: bool,
                       garminAccepted: bool, fromDateGiven: bool): (steps: seq<Action>)
    ensures SetTrainerRoadWeight(lastWeight) in steps <==> trainerRoadUser
    ensures UploadToGarmin(file) in steps <==> garminUser
    ensures SaveLastSync in steps <==> garminUser && garminAccepted && !fromDateGiven
    ensures forall a :: a in steps ==>
      (!a.WriteToStdout? &&
       (a.SetTrainerRoadWeight? ==> a.weight == lastWeight) && (a.UploadToGarmin? ==> a.file == file))
    ensures |steps| == (if trainerRoadUser then 1 else 0) + (if garminUser then 1 else 0) +
                       (if garminUser && garminAccepted && !fromDateGiven then 1 else 0)
    ensures trainerRoadUser ==> steps[0] == SetTrainerRoadWeight(lastWeight)
    ensures SaveLastSync in steps ==>
      steps[|steps| - 1] == SaveLastSync && UploadToGarmin(file) in steps[..|steps| - 1]
  {
    (if trainerRoadUser then [SetTrainerRoadWeight(lastWeight)] else []) +
    (if garminUser then
       [UploadToGarmin(file)] + (if garminAccepted && !fromDateGiven then [SaveLastSync] else [])
     else [])
  }

  /**
   * `sync()` from the point where the groups and the height have been
   * fetched. `groups` is `None` when the account returned no list at all.
   * The result code is `Some(-1)` on either failure, `Some(0)` in no-upload
   * mode, and `None` after the upload steps (the Python function then falls
   * off its end). `fit` is the encoder the run created, `null` if none.
   */
  method Sync(groups: Option<seq<Group>>, height: Option<real>, noUpload: bool,
              trainerRoadUser: bool, garminUser: bool, garminAccepted: bool, fromDateGiven: bool)
    returns (code: Option<int>, fit: FitEncoderWeight?, last: Option<Reading>, actions: seq<Action>)
    ensures groups.None? || groups.value == [] ==>
      code == Some(-1) && fit == null && last.None? && actions == []
    ensures groups.Some? && groups.value != [] ==>
      fit != null && fit.finished &&
      fit.log == FileEvents(groups.value, height) &&
      last == Last(groups.value) &&
      (last.None? ==> code == Some(-1) && actions == []) &&
      (last.Some? && noUpload ==> code == Some(0) && actions == [WriteToStdout(fit.log)]) &&
      (last.Some? && !noUpload ==>
         (code.None? &&
          actions == UploadSteps(fit.log, last.value.weight, trainerRoadUser, garminUser, garminAccepted, fromDateGiven)))
  {
    if groups.None? || |groups.value| == 0 {
      return Some(-1), null, None, [];
    }
    var gs := groups.value;

    fit := new FitEncoderWeight();
    fit.WriteFileInfo();
    fit.WriteFileCreator();

    var lastDt: Option<int> := None;
    var lastWeight: Option<real> := None;

    for i := 0 to |gs|
      invariant !fit.finished
      invariant fit.log == FileEvents(gs[..i], height)
      invariant lastDt.Some? == lastWeight.Some?
      invariant Last(gs[..i]) == if lastDt.None? then None else Some(Reading(lastDt.value, lastWeight.value))
    {
      var g := gs[i];
      assert gs[..i + 1][..i] == gs[..i] && gs[..i + 1][i] == g;
      if g.weight.None? {
        continue;
      }
      var weight := g.weight.value;
      var bmi := Bmi(weight, height);
      var percentHydration := PercentHydration(g.hydration, weight);

      fit.WriteDeviceInfo(g.dt);
      fit.WriteWeightScale(g.dt, ScaleValues(weight, g.fatRatio, percentHydration, g.boneMass, g.muscleMass, bmi));

      if lastDt.None? || g.dt > lastDt.value {
        lastDt := Some(g.dt);
        lastWeight := Some(weight);
      }
    }
    assert gs[..|gs|] == gs;

    fit.Finish();

    if lastWeight.None? {
      return Some(-1), fit, None, [];
    }
    last := Some(Reading(lastDt.value, lastWeight.value));

    var file := fit.GetValue();
    if noUpload {
      return Some(0), fit, last, [WriteToStdout(file)];
    }
    actions := UploadSteps(file, lastWeight.value, trainerRoadUser, garminUser, garminAccepted, fromDateGiven);
    code := None;
  }
}
