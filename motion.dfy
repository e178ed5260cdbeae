/**
 * The motion classifier: each accelerometer sample, reduced to its magnitude in
 * units of g, moves the state (shake counter, displayed state, time of the last
 * counted shake) and may write one event to the remote path "movimiento".
 * `Step` is the specification of one sample; class MotionViewModel carries the
 * fields the view model updates in place.
 */
module Motion {
  import opened Models

  /** `2.7f`: the Float nearest to 2.7, written out exactly. */
  const SHAKE_G: real := 11324621.0 / 4194304.0
  /** `1.2f`: the Float nearest to 1.2, written out exactly. */
  const LIGHT_G: real := 10066330.0 / 8388608.0
  /** Shakes closer together than this (or exactly this far apart) count once. */
  const DEBOUNCE_MS: int := 500

  const SHAKE_LABEL := "sacudida"
  const LIGHT_LABEL := "leve"

  const IDLE_STATE := "Inactivo"
  const SHAKE_STATE := "Sacudida detectada"
  const LIGHT_STATE := "Movimiento leve"
  const REST_STATE := "En reposo"

  /** The view model's fields, and the events it has written so far. */
  datatype MotionState = MotionState(
    contadorSacudidas: int,
    estadoMovimiento: string,
    lastShakeTime: int,
    written: seq<MotionEvent>)

  /** One sample: its g-force, the clock reading, and the formatted date of a write. */
  datatype Sample = Sample(gForce: real, now: int, fecha: string)

  /** Before the first sample: no shakes, "Inactivo", and the counter invariant holds. */
  function Initial(): (r: MotionState)
    ensures r.contadorSacudidas == 0 && r.estadoMovimiento == IDLE_STATE && r.written == []
    ensures Consistent(r)
  {
    MotionState(0, IDLE_STATE, 0, [])
  }

  /** How many of the written events are shakes. */
  function ShakeCount(w: seq<MotionEvent>): nat
  {
    if |w| == 0 then 0
    else ShakeCount(w[..|w| - 1]) + (if w[|w| - 1].tipo == SHAKE_LABEL then 1 else 0)
  }

  /** The counter is the number of shake events written. */
  predicate Consistent(st: MotionState)
  {
    st.contadorSacudidas == ShakeCount(st.written)
  }

  /** `onSensorChanged` for one sample. */
  function Step(st: MotionState, x: Sample): (r: MotionState)
    ensures st.contadorSacudidas <= r.contadorSacudidas <= st.contadorSacudidas + 1
    ensures |st.written| <= |r.written| <= |st.written| + 1
    ensures r.written[..|st.written|] == st.written
    ensures Consistent(st) ==> Consistent(r)
  {
    if x.gForce > SHAKE_G then
      if x.now - st.lastShakeTime > DEBOUNCE_MS then
        var w := st.written + [MotionEvent(SHAKE_LABEL, x.fecha)];
        assert w[..|w| - 1] == st.written;
        MotionState(st.contadorSacudidas + 1, SHAKE_STATE, x.now, w)
      else
        st
    else if x.gForce > LIGHT_G then
      var w := st.written + [MotionEvent(LIGHT_LABEL, x.fecha)];
      assert w[..|w| - 1] == st.written;
      st.(estadoMovimiento := LIGHT_STATE, written := w)
    else
      st.(estadoMovimiento := REST_STATE)
  }

  /** The samples, one after the other. */
  function Run(st: MotionState, xs: seq<Sample>): MotionState
    decreases |xs|
  {
    if |xs| == 0 then st else Run(Step(st, xs[0]), xs[1..])
  }

  // ---------------------------------------------------------------------------
  // The three bands
  // ---------------------------------------------------------------------------

  /** A strong shake outside the window is counted, timed, shown and written once. */
  lemma StepCountsShake(st: MotionState, x: Sample)
    requires x.gForce > SHAKE_G && x.now - st.lastShakeTime > DEBOUNCE_MS
    ensures Step(st, x).contadorSacudidas == st.contadorSacudidas + 1
    ensures Step(st, x).lastShakeTime == x.now
    ensures Step(st, x).estadoMovimiento == SHAKE_STATE
    ensures Step(st, x).written == st.written + [MotionEvent(SHAKE_LABEL, x.fecha)]
  {
  }

  /** A strong shake inside the window (500 ms included) changes nothing at all. */
  lemma StepIgnoresBouncedShake(st: MotionState, x: Sample)
    requires x.gForce > SHAKE_G && x.now - st.lastShakeTime <= DEBOUNCE_MS
    ensures Step(st, x) == st
  {
  }

  /** Light motion is shown and written every time, and leaves the shake counter alone. */
  lemma StepLightMotion(st: MotionState, x: Sample)
    requires LIGHT_G < x.gForce <= SHAKE_G
    ensures Step(st, x) == st.(estadoMovimiento := LIGHT_STATE,
                               written := st.written + [MotionEvent(LIGHT_LABEL, x.fecha)])
  {
  }

  /** Rest is shown but never written. */
  lemma StepRest(st: MotionState, x: Sample)
    requires x.gForce <= LIGHT_G
    ensures Step(st, x) == st.(estadoMovimiento := REST_STATE)
  {
  }

  // ---------------------------------------------------------------------------
  // Over many samples
  // ---------------------------------------------------------------------------

  /** At every point the counter equals the number of shake events written. */
  lemma {:induction false} RunConsistent(st: MotionState, xs: seq<Sample>)
    requires Consistent(st)
    ensures Consistent(Run(st, xs))
    decreases |xs|
  {
    if |xs| != 0 {
      RunConsistent(Step(st, xs[0]), xs[1..]);
    }
  }

  /**
   * The counter never decreases and grows by at most one per sample; what was
   * written stays written.
   */
  lemma {:induction false} RunCounterBounds(st: MotionState, xs: seq<Sample>)
    ensures st.contadorSacudidas <= Run(st, xs).contadorSacudidas <= st.contadorSacudidas + |xs|
    ensures |st.written| <= |Run(st, xs).written| <= |st.written| + |xs|
    ensures Run(st, xs).written[..|st.written|] == st.written
    decreases |xs|
  {
    if |xs| != 0 {
      var next := Step(st, xs[0]);
      RunCounterBounds(next, xs[1..]);
      assert Run(st, xs).written[..|st.written|] == next.written[..|st.written|];
    }
  }

  /** From the initial state, the counter is always the number of "sacudida" events written. */
  lemma CounterMatchesWrites(xs: seq<Sample>)
    ensures Run(Initial(), xs).contadorSacudidas == ShakeCount(Run(Initial(), xs).written)
    ensures Run(Initial(), xs).contadorSacudidas >= 0
  {
    RunConsistent(Initial(), xs);
  }

  /**
   * Two strong shakes `d` ms apart, the first outside the window: they count
   * twice when `d` > 500 and once when `d` <= 500.
   */
  lemma TwoShakes(st: MotionState, t: int, d: int, g1: real, g2: real, f1: string, f2: string)
    requires g1 > SHAKE_G && g2 > SHAKE_G && t - st.lastShakeTime > DEBOUNCE_MS
    ensures Run(st, [Sample(g1, t, f1), Sample(g2, t + d, f2)]).contadorSacudidas
         == st.contadorSacudidas + (if d > DEBOUNCE_MS then 2 else 1)
    ensures Run(st, [Sample(g1, t, f1), Sample(g2, t + d, f2)]).written
         == st.written + [MotionEvent(SHAKE_LABEL, f1)]
                       + (if d > DEBOUNCE_MS then [MotionEvent(SHAKE_LABEL, f2)] else [])
  {
    var xs := [Sample(g1, t, f1), Sample(g2, t + d, f2)];
    var s1 := Step(st, xs[0]);
    StepCountsShake(st, xs[0]);
    var rest := xs[1..];
    assert rest == [Sample(g2, t + d, f2)] && rest[1..] == [];
    assert Run(st, xs) == Run(s1, rest);
    assert Run(s1, rest) == Run(Step(s1, rest[0]), rest[1..]);
  }

  /** `MotionViewModel`, with the fields its sensor listener updates. */
  class MotionViewModel {
    var contadorSacudidas: int
    var estadoMovimiento: string
    var lastShakeTime: int
    /** The events pushed to "movimiento" by `guardarEvento`, oldest first. */
    var written: seq<MotionEvent>

    function State(): MotionState
      reads this
    {
      MotionState(contadorSacudidas, estadoMovimiento, lastShakeTime, written)
    }

    ghost predicate Valid()
      reads this
    {
      Consistent(State())
    }

    constructor ()
      ensures State() == Initial() && Valid()
    {
      contadorSacudidas := 0;
      estadoMovimiento := IDLE_STATE;
      lastShakeTime := 0;
      written := [];
    }

    /** `guardarEvento`: one write to "movimiento". */
    method GuardarEvento(tipo: string, fecha: string)
      modifies this`written
      ensures written == old(written) + [MotionEvent(tipo, fecha)]
    {
      written := written + [MotionEvent(tipo, fecha)];
    }

    /** The listener's `onSensorChanged`, after the g-force has been computed. */
    method OnSensorChanged(gForce: real, now: int, fecha: string)
      requires Valid()
      modifies this
      ensures Valid()
      ensures State() == Step(old(State()), Sample(gForce, now, fecha))
    {
      if gForce > SHAKE_G {
        if now - lastShakeTime > DEBOUNCE_MS {
          lastShakeTime := now;
          contadorSacudidas := contadorSacudidas + 1;
          estadoMovimiento := SHAKE_STATE;
          GuardarEvento(SHAKE_LABEL, fecha);
        }
      } else if gForce > LIGHT_G {
        estadoMovimiento := LIGHT_STATE;
        GuardarEvento(LIGHT_LABEL, fecha);
      } else {
        estadoMovimiento := REST_STATE;
      }
    }
  }
}
