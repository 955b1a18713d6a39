/**
 * The weight FIT encoder as the sync loop sees it: an object that receives
 * an ordered series of write calls and is then finished. The byte layout it
 * produces is not part of this model; each call is recorded as one event in
 * an append-only log, which is what the finished file is made of.
 */
module FitEncoder {
  import opened Wrappers

  /** The values of one weight-scale record, absent ones as `None`. */
  datatype ScaleValues = ScaleValues(
    weight: real,
    percentFat: Option<real>,
    percentHydration: Option<real>,
    boneMass: Option<real>,
    muscleMass: Option<real>,
    bmi: Option<real>)

  /** One write call on the encoder. */
  datatype Event =
    | FileInfo
    | FileCreator
    | DeviceInfo(timestamp: int)
    | WeightScale(timestamp: int, values: ScaleValues)

  class FitEncoderWeight {
    /** Every write so far, oldest first. */
    var log: seq<Event>
    /** Set by `Finish`; no write is accepted afterwards. */
    var finished: bool

    constructor ()
      ensures log == [] && !finished
    {
      log := [];
      finished := false;
    }

    method WriteFileInfo()
      requires !finished
      modifies this
      ensures log == old(log) + [FileInfo] && !finished
    {
      log := log + [FileInfo];
    }

    method WriteFileCreator()
      requires !finished
      modifies this
      ensures log == old(log) + [FileCreator] && !finished
    {
      log := log + [FileCreator];
    }

    method WriteDeviceInfo(timestamp: int)
      requires !finished
      modifies this
      ensures log == old(log) + [DeviceInfo(timestamp)] && !finished
    {
      log := log + [DeviceInfo(timestamp)];
    }

    method WriteWeightScale(timestamp: int, values: ScaleValues)
      requires !finished
      modifies this
      ensures log == old(log) + [WeightScale(timestamp, values)] && !finished
    {
      log := log + [WeightScale(timestamp, values)];
    }

    /** Closes the file: the log is final from here on. */
    method Finish()
      requires !finished
      modifies this
      ensures log == old(log) && finished
    {
      finished := true;
    }

    /** The finished file, available only once `Finish` has run. */
    method GetValue() returns (file: seq<Event>)
      requires finished
      ensures file == log
    {
      file := log;
    }
  }
}
