/**
 * The proximity classifier (`ProximityViewModel`): every sample sets the
 * displayed state from `distance < maximumRange` and writes one event with that
 * state to the remote path "proximidad".  `Step` is the specification of one
 * sample; class ProximityViewModel carries the fields updated in place.
 */
module Proximity {
  import opened Wrappers
  import opened Models

  const NEAR := "Objeto detectado cerca"
  const FAR := "Sin objetos cerca"
  const UNKNOWN := "Desconocido"

  /** The near/far decision; `maxRange` is the sensor's range, absent without a sensor (`?: 0f`). */
  function Classify(distance: real, maxRange: Option<real>): (estado: string)
    ensures estado == NEAR || estado == FAR
    ensures estado == NEAR <==> distance < maxRange.GetOr(0.0)
  {
    if distance < maxRange.GetOr(0.0) then NEAR else FAR
  }

  /** A reading exactly at the range is far. */
  lemma AtRangeIsFar(r: real)
    ensures Classify(r, Some(r)) == FAR
  {
  }

  /** Without a sensor the range is 0, so no non-negative distance is near. */
  lemma NoSensorIsFar(distance: real)
    requires distance >= 0.0
    ensures Classify(distance, None) == FAR
  {
  }

  /** The displayed state and the events written so far. */
  datatype ProximityState = ProximityState(estado: string, written: seq<ProximityEvent>)

  datatype Sample = Sample(distance: real, fecha: string)

  /** Before the first sample: "Desconocido", nothing written, and the invariant holds. */
  function Initial(): (r: ProximityState)
    ensures r.estado == UNKNOWN && r.written == []
    ensures ShowsLastWrite(r)
  {
    ProximityState(UNKNOWN, [])
  }

  /**
   * `onSensorChanged` for one sample: whatever the state before, the state
   * after is near or far and is the state of the one event appended, which
   * carries the sample's fecha.
   */
  function Step(st: ProximityState, maxRange: Option<real>, x: Sample): (r: ProximityState)
    ensures |r.written| == |st.written| + 1 && r.written[..|st.written|] == st.written
    ensures r.written[|st.written|].fecha == x.fecha
    ensures r.estado != UNKNOWN && ShowsLastWrite(r)
  {
    var nuevoEstado := Classify(x.distance, maxRange);
    ProximityState(nuevoEstado, st.written + [ProximityEvent(nuevoEstado, x.fecha)])
  }

  function Run(st: ProximityState, maxRange: Option<real>, xs: seq<Sample>): ProximityState
    decreases |xs|
  {
    if |xs| == 0 then st else Run(Step(st, maxRange, xs[0]), maxRange, xs[1..])
  }

  /**
   * Before any sample the state is "Desconocido" and nothing is written; after
   * one, it is near or far and it is the state of the last event written.
   */
  predicate ShowsLastWrite(st: ProximityState)
  {
    || (st.estado == UNKNOWN && st.written == [])
    || (|st.written| != 0 && (st.estado == NEAR || st.estado == FAR)
        && st.estado == st.written[|st.written| - 1].estado)
  }

  /**
   * Every sample writes exactly one event, carrying that sample's
   * classification and date, even when the state did not change.
   */
  lemma {:induction false} RunWritesEverySample(st: ProximityState, maxRange: Option<real>, xs: seq<Sample>)
    ensures |Run(st, maxRange, xs).written| == |st.written| + |xs|
    ensures Run(st, maxRange, xs).written[..|st.written|] == st.written
    ensures forall i :: 0 <= i < |xs| ==>
      Run(st, maxRange, xs).written[|st.written| + i] == ProximityEvent(Classify(xs[i].distance, maxRange), xs[i].fecha)
    decreases |xs|
  {
    if |xs| != 0 {
      var next := Step(st, maxRange, xs[0]);
      RunWritesEverySample(next, maxRange, xs[1..]);
      var w := Run(st, maxRange, xs).written;
      assert w[..|st.written|] == next.written[..|st.written|];
      forall i | 0 <= i < |xs|
        ensures w[|st.written| + i] == ProximityEvent(Classify(xs[i].distance, maxRange), xs[i].fecha)
      {
        if i > 0 {
          assert xs[1..][i - 1] == xs[i];
          assert |next.written| + (i - 1) == |st.written| + i;
        } else {
          assert w[..|next.written|] == next.written;
        }
      }
    }
  }

  /** The displayed state is always the state of the last event written. */
  lemma {:induction false} RunShowsLastWrite(st: ProximityState, maxRange: Option<real>, xs: seq<Sample>)
    requires ShowsLastWrite(st)
    ensures ShowsLastWrite(Run(st, maxRange, xs))
    ensures |xs| != 0 ==> Run(st, maxRange, xs).estado != UNKNOWN
    decreases |xs|
  {
    if |xs| != 0 {
      RunShowsLastWrite(Step(st, maxRange, xs[0]), maxRange, xs[1..]);
    }
  }

  /** `ProximityViewModel`, with the fields its sensor listener updates. */
  class ProximityViewModel {
    /** `proxSensor?.maximumRange`: absent when the device has no proximity sensor. */
    const maxRange: Option<real>
    /** `_estado.value` */
    var estado: string
    /** The events pushed to "proximidad", oldest first. */
    var written: seq<ProximityEvent>

    function State(): ProximityState
      reads this
    {
      ProximityState(estado, written)
    }

    ghost predicate Valid()
      reads this
    {
      ShowsLastWrite(State())
    }

    constructor (sensorMaxRange: Option<real>)
      ensures maxRange == sensorMaxRange
      ensures State() == Initial() && Valid()
    {
      maxRange := sensorMaxRange;
      estado := UNKNOWN;
      written := [];
    }

    /** The listener's `onSensorChanged` for a reading `distance`, dated `fecha`. */
    method OnSensorChanged(distance: real, fecha: string)
      requires Valid()
      modifies this
      ensures Valid()
      ensures State() == Step(old(State()), maxRange, Sample(distance, fecha))
    {
      var isNear := distance < maxRange.GetOr(0.0);
      var nuevoEstado := if isNear then NEAR else FAR;
      estado := nuevoEstado;
      written := written + [ProximityEvent(nuevoEstado, fecha)];
    }
  }
}
