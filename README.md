# withings-sync: the measurement loop of `sync()`, in Dafny

`withings-sync` fetches body-composition measurements from a Withings account,
writes them into a FIT weight file, and hands that file to Garmin Connect (or to
standard output). It also sends the latest weight to TrainerRoad. This project
models the part of `sync()` that runs once the measurement groups and the user's
height have been fetched. That part covers:

- the guard against an empty or missing group list;
- the order of calls on the weight FIT encoder: file info, file creator, one
  device-info and one weight-scale record per group that has a weight, then
  finish;
- how each record's values are derived: BMI from the height, hydration
  percentage from the hydration mass, the other values passed through;
- the scan that picks the "last weight": the first group with the greatest
  timestamp;
- the status codes and the steps that follow: no-upload output, TrainerRoad,
  Garmin Connect, saving the sync time.

Files:

- `wrappers.dfy`: `Option`, standing in for Python's `None`.
- `measurements.dfy`: a measurement group, Python truthiness of an optional
  float, and the BMI and hydration-percentage derivations.
- `fit_encoder.dfy`: the encoder as a class. It holds an append-only log of
  write events and a `finished` flag. The FIT byte layout is not modelled, so
  the finished file is the event log.
- `sync.dfy`: the specification functions and lemmas (events per group,
  kept groups, the last-weight scan and its first-maximum characterisation),
  the `Sync` method with its loop, and the upload steps.

Timestamps are integers. Masses, ratios and the height are reals. The Withings,
Garmin Connect and TrainerRoad clients become inputs of `Sync`: the group list,
the height, whether a TrainerRoad or Garmin user is set, whether Garmin accepted
the upload, and whether a start date was given. What `sync()` asks of them comes
back as a list of `Action`s.

Three behaviours of the code are kept as written:

- A hydration mass or height of `0` counts as absent, because of Python
  truthiness.
- A device-info record is written before every weight-scale record, not once
  per file.
- When no group has a weight, the encoder is still finished before `-1` is
  returned. No file is written or uploaded.

## Model

| member | source | states |
|---|---|---|
| `Measurements.Bmi` | withings_sync/sync.py:133-136 | BMI is present exactly when the height and the weight are both truthy (so a weight of 0 gets none), and then BMI × height² equals the weight |
| `Measurements.PercentHydration` | withings_sync/sync.py:138-141 | the hydration percentage is present exactly when the hydration mass and the weight are both truthy, and then percentage × weight = hydration × 100 |
| `FitEncoder.FitEncoderWeight.constructor` | withings_sync/sync.py:109 | a new encoder has an empty log and is not finished |
| `FitEncoder.FitEncoderWeight.WriteFileInfo` | withings_sync/sync.py:110 | appends one file-info event, nothing else changes |
| `FitEncoder.FitEncoderWeight.WriteFileCreator` | withings_sync/sync.py:111 | appends one file-creator event, nothing else changes |
| `FitEncoder.FitEncoderWeight.WriteDeviceInfo` | withings_sync/sync.py:143 | appends one device-info event with the given timestamp |
| `FitEncoder.FitEncoderWeight.WriteWeightScale` | withings_sync/sync.py:144-150 | appends one weight-scale event with the given timestamp and values |
| `FitEncoder.FitEncoderWeight.Finish` | withings_sync/sync.py:166 | marks the encoder finished and leaves the log as it was; no write is accepted after it |
| `FitEncoder.FitEncoderWeight.GetValue` | withings_sync/sync.py:173 | only a finished encoder yields its file, which is the whole log |
| `Sync.RecordEventsAppend` | withings_sync/sync.py:116-150 | the loop's output for consecutive runs of groups is the concatenation of each run's output |
| `Sync.WeightlessGroupWritesNothing` | withings_sync/sync.py:126-131 | a group without a weight writes no event, and the groups after it are written exactly as if it were absent |
| `Sync.KeptIsWeightBearing` | withings_sync/sync.py:126-131 | the groups that get records are exactly the input groups that have a weight, each as many times as it occurs in the input |
| `Sync.KeptAppend` | withings_sync/sync.py:116-131 | the groups that get records keep their input order: those of `a + b` are those of `a` followed by those of `b` |
| `Sync.RecordEventsPairs` | withings_sync/sync.py:143-150 | each weight-bearing group writes exactly one device-info event immediately followed by one weight-scale event with the same timestamp, its own weight, fat ratio, bone and muscle mass, the derived hydration percentage and BMI, in input order; there are no other record events |
| `Sync.FileEventsOrder` | withings_sync/sync.py:109-111 | the file starts with file info and then file creator, and every later event is a device-info or weight-scale record |
| `Sync.LastNoneIffWeightless` | withings_sync/sync.py:162-170 | the scan finds no last weight exactly when no group has a weight |
| `Sync.LastIsFirstMax` | withings_sync/sync.py:162-164 | the reading the scan keeps comes from a weight-bearing group with the greatest timestamp, and no earlier weight-bearing group has that timestamp |
| `Sync.FirstMaxUnique` | withings_sync/sync.py:162-164 | only one group is the first to reach the greatest timestamp |
| `Sync.LastFromFirstMax` | withings_sync/sync.py:162-164 | conversely, the first group that reaches the greatest timestamp is the one the scan reports |
| `Sync.LastWeightExample` | withings_sync/sync.py:162-164 | for groups at times 100, 200, 150 with weights 70, 71, 72 the last weight is 71 at 200, not the last one processed |
| `Sync.SingleRecordExample` | withings_sync/sync.py:133-150 | height 1.75 and one group of 70 kg with 35 kg of water give file info, file creator, a device-info event and a weight-scale record with BMI 70 / 1.75², 50 % hydration and no fat, bone or muscle value |
| `Sync.UploadSteps` | withings_sync/sync.py:176-209 | TrainerRoad gets the last weight (first) exactly when a TrainerRoad user is set; Garmin Connect gets the file exactly when a Garmin user is set; the sync time is saved exactly when Garmin accepted the file and no start date was given, and then as the final step, after the upload; each step occurs at most once |
| `Sync.Sync` | withings_sync/sync.py:100-174 | a missing or empty group list returns -1 and creates no encoder; otherwise the encoder ends finished with its log equal to file info, file creator and the per-group records, and the last weight equals the scan's; with no weight it returns -1 and does nothing more, in no-upload mode it returns 0 and writes the file to standard output, and otherwise it runs the upload steps |

## Left out

- Argument parsing (`get_args`) and logging set-up and calls: no logic beyond side effects.
- Fetching from Withings and the date range computed with `time.mktime`: they
  are network and clock I/O. The fetched groups and height are inputs of
  `Sync`, and so is whether Garmin accepted the upload.
- The TrainerRoad and Garmin logins: a failing login raises and skips the
  remaining steps. The model assumes both logins succeed.
- The diagnostic logging of a weightless group's raw entries: logging only.
  `Group` has no raw-data field.
- The FIT encoder's byte layout: header, definition messages, scale factors,
  epoch and checksum. `withings_sync/fit.py` is not part of this model, so the
  encoder records which calls were made and in what order.
- Sync.UploadSteps: the TrainerRoad weight is the unrounded last weight. The
  source rounds it to one decimal, which is IEEE float rounding and is not modelled.
- Measurements.Bmi: the value is the unrounded weight / height². The source
  rounds it to one decimal with `round(..., 1)`.
- FitEncoder.FitEncoderWeight.WriteFileInfo, WriteFileCreator, WriteDeviceInfo,
  WriteWeightScale, Finish: a write after `finish` is excluded by a
  precondition, not modelled as an error, because the encoder's own checks
  are not part of this model. `sync()` never writes after finishing.
- Datetimes are integer timestamps. The source compares `datetime` objects with
  `>`, which orders them the same way.
