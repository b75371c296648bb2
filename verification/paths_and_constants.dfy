/** The rule of three behind the acquisition times: a reference exposure of
    500000 microseconds (0.5 s) showed `ev` photons on average, so `n`
    photons on average need n * 0.5 / ev seconds, reported at a chosen SI
    prefix. */
module PathsAndConstants {
  import opened Wrappers
  import opened RealFacts

  datatype ExposureError =
    | ZeroDivision         // `e_v` is zero
    | UnknownPrefix(prefix: string)

  /** The reference exposure in seconds, `500000E-6`. */
  const ReferenceSeconds: real := 0.5

  /** The prefix table: seconds per unit for each accepted prefix. */
  function PrefixScale(prefix: string): (r: Option<real>)
    ensures r.Some? <==> prefix in {"nano", "micro", "mili", ""}
    ensures r.Some? ==> r.value > 0.0
  {
    if prefix == "nano" then Some(0.000000001)
    else if prefix == "micro" then Some(0.000001)
    else if prefix == "mili" then Some(0.001)
    else if prefix == "" then Some(1.0)
    else None
  }

  /** `tiempo_requerido(n, e_v, escala)`. The division by `e_v` comes
      before the table lookup, so a zero `e_v` is reported first. */
  function RequiredTime(n: real, ev: real, prefix: string): (r: Result<real, ExposureError>)
    ensures ev == 0.0 ==> r == Failure(ZeroDivision)
    ensures ev != 0.0 && PrefixScale(prefix).None? ==> r == Failure(UnknownPrefix(prefix))
    ensures r.Success? <==> ev != 0.0 && PrefixScale(prefix).Some?
    ensures r.Success? ==> r.value * PrefixScale(prefix).value * ev == n * ReferenceSeconds
  {
    if ev == 0.0 then Failure(ZeroDivision)
    else
      var seconds := n * ReferenceSeconds / ev;
      match PrefixScale(prefix)
      case None => Failure(UnknownPrefix(prefix))
      case Some(scale) =>
        assert seconds * ev == n * ReferenceSeconds;
        Success(seconds / scale)
  }

  /** The required time is proportional to the photon count: no photons
      need no time, and k times the photons need k times the time. */
  lemma LinearInCount(n: real, k: real, ev: real, prefix: string)
    requires RequiredTime(n, ev, prefix).Success?
    ensures RequiredTime(0.0, ev, prefix) == Success(0.0)
    ensures RequiredTime(k * n, ev, prefix).Success?
    ensures RequiredTime(k * n, ev, prefix).value == k * RequiredTime(n, ev, prefix).value
  {
    var scale := PrefixScale(prefix).value;
    var t := RequiredTime(n, ev, prefix).value;
    var u := RequiredTime(k * n, ev, prefix).value;
    var z := RequiredTime(0.0, ev, prefix).value;
    var d := scale * ev;
    assert u * scale * ev == (k * n) * ReferenceSeconds;
    assert u * d == (k * n) * ReferenceSeconds;
    assert t * scale * ev == n * ReferenceSeconds;
    assert t * d == n * ReferenceSeconds;
    assert (k * t) * d == k * (t * d);
    assert k * (n * ReferenceSeconds) == (k * n) * ReferenceSeconds;
    Cancel(u, k * t, d);
    assert z * scale * ev == 0.0;
    assert z * d == 0.0;
    Cancel(z, 0.0, d);
  }

  /** Asking for the reference count gives back the reference exposure,
      500000 microseconds. */
  lemma ReferenceExposure(ev: real)
    requires ev != 0.0
    ensures RequiredTime(ev, ev, "micro") == Success(500000.0)
  {
    var t := RequiredTime(ev, ev, "micro").value;
    assert t * (0.000001 * ev) == 500000.0 * (0.000001 * ev);
    Cancel(t, 500000.0, 0.000001 * ev);
  }

  /** The same exposure reads 1000 times larger one prefix down:
      microseconds against milliseconds, nanoseconds against microseconds;
      without a prefix it is in seconds. */
  lemma PrefixesDifferByThousand(n: real, ev: real)
    requires ev != 0.0
    ensures RequiredTime(n, ev, "micro").value == 1000.0 * RequiredTime(n, ev, "mili").value
    ensures RequiredTime(n, ev, "nano").value == 1000.0 * RequiredTime(n, ev, "micro").value
    ensures RequiredTime(n, ev, "").value * ev == n * ReferenceSeconds
  {
    var nano := RequiredTime(n, ev, "nano").value;
    var micro := RequiredTime(n, ev, "micro").value;
    var mili := RequiredTime(n, ev, "mili").value;
    assert micro * (0.001 * ev) == (1000.0 * mili) * (0.001 * ev) by {
      assert micro * 0.000001 * ev == mili * 0.001 * ev;
    }
    Cancel(micro, 1000.0 * mili, 0.001 * ev);
    assert nano * (0.000001 * ev) == (1000.0 * micro) * (0.000001 * ev) by {
      assert nano * 0.000000001 * ev == micro * 0.000001 * ev;
    }
    Cancel(nano, 1000.0 * micro, 0.000001 * ev);
  }

  /** With a positive reference count, more photons never need less time. */
  lemma MonotoneInCount(n1: real, n2: real, ev: real, prefix: string)
    requires ev > 0.0 && n1 <= n2
    requires RequiredTime(n1, ev, prefix).Success?
    ensures RequiredTime(n1, ev, prefix).value <= RequiredTime(n2, ev, prefix).value
  {
    var d := PrefixScale(prefix).value * ev;
    var t1 := RequiredTime(n1, ev, prefix).value;
    var t2 := RequiredTime(n2, ev, prefix).value;
    assert d > 0.0;
    assert t1 * d <= t2 * d;
    CancelPositive(t1, t2, d);
  }
}
