/**
 * Boundary corrections: offsets added to a measured open-closed boundary
 * radius as a function of magnetic local time (MLT, in hours).
 *
 * `circular` applies the same offset everywhere. `elliptical` and `harmonic`
 * evaluate a trigonometric series in the local-time angle, with a coefficient
 * table chosen by instrument and fitting method. The tables and the cosine and
 * sine themselves are abstract constants: only their shape is modelled.
 */
module OcbCorrection {
  import opened Wrappers
  import opened Elementwise
  import OcbTime

  /** Why a correction refuses its arguments (both raise `ValueError`). */
  datatype CorrectionError = UnknownInstrument(instrument: string) | UnknownMethod(name: string)

  // ---------------------------------------------------------------- circular

  /** `circular`: the offset `rAdd` wherever the boundary is; the local time is not used. */
  function Circular(mlt: real, rAdd: real): (r: real)
  {
    rAdd
  }

  /** `circular` on an array: an array of `rAdd` of the same length. */
  function CircularSeq(mlts: seq<real>, rAdd: real): (rs: seq<real>)
    ensures |rs| == |mlts|
    ensures forall i :: 0 <= i < |rs| ==> rs[i] == rAdd
  {
    Map(mlt => Circular(mlt, rAdd), mlts)
  }

  /** The circular correction does not depend on the local time, and is zero by default. */
  lemma CircularConstant(mlt: real, other: real, rAdd: real)
    ensures Circular(mlt, rAdd) == Circular(other, rAdd)
    ensures Circular(mlt, 0.0) == 0.0
    ensures Circular(mlt, 1.0) == 1.0
  {
  }

  // ------------------------------------------------------ series and tables

  /** One harmonic of a series: the weights of `cos(i θ)` and of `sin(i θ)`. */
  datatype Term = Term(a: real, b: real)

  /** `a0 + Σ (a_i cos(i θ) + b_i sin(i θ))` for `i = 1 .. |terms|`. */
  datatype Series = Series(a0: real, terms: seq<Term>)

  /** The coefficients a correction uses for each fitting method: `standard` for `"default"`, `gaussian` for `"gaussian"`. */
  datatype MethodTables = MethodTables(standard: Series, gaussian: Series)

  /** The fitting methods a correction accepts. */
  datatype Method = Default | Gaussian

  /** Cosine and sine of an angle in radians (`numpy.cos`, `numpy.sin`). */
  const Cos: real -> real
  const Sin: real -> real

  /** The fitted coefficient tables of the two corrections. */
  const EllipticalTables: MethodTables
  const HarmonicTables: MethodTables

  /** The instrument whose fits the corrections carry, and their default. */
  const DefaultInstrument: string := "ampere"
  const Instruments: set<string> := {DefaultInstrument}

  /** The names of the fitting methods. */
  const MethodNames: set<string> := {"default", "gaussian"}

  /** The angle `x` one full turn (2π radians) further on. */
  function Turn(x: real): real {
    x + 2.0 * OcbTime.Pi
  }

  /** Both functions repeat after a full turn. */
  ghost predicate TrigPeriodic() {
    forall x :: Cos(Turn(x)) == Cos(x) && Sin(Turn(x)) == Sin(x)
  }

  /** The values at a zero angle. */
  predicate TrigAtZero() {
    Cos(0.0) == 1.0 && Sin(0.0) == 0.0
  }

  /** The harmonics of `terms`, numbered from `i`, at angle `theta`. */
  function Harmonics(terms: seq<Term>, i: nat, theta: real): real
    decreases |terms|
  {
    if terms == [] then 0.0
    else terms[0].a * Cos((i as real) * theta) + terms[0].b * Sin((i as real) * theta)
         + Harmonics(terms[1..], i + 1, theta)
  }

  /** The series at angle `theta`. */
  function Evaluate(s: Series, theta: real): real {
    s.a0 + Harmonics(s.terms, 1, theta)
  }

  /** The cosine weights added up: the series' value at a zero angle. */
  function CosineWeights(terms: seq<Term>): real
    decreases |terms|
  {
    if terms == [] then 0.0 else terms[0].a + CosineWeights(terms[1..])
  }

  // -------------------------------------------------------------- selection

  /** A method name as the corrections accept it. */
  function ParseMethod(name: string): (r: Option<Method>)
    ensures r == Some(Default) <==> name == "default"
    ensures r == Some(Gaussian) <==> name == "gaussian"
    ensures r.None? <==> name !in MethodNames
  {
    if name == "default" then Some(Default)
    else if name == "gaussian" then Some(Gaussian)
    else None
  }

  /**
   * The series for an instrument and a method name: unknown instruments are
   * refused first, then unknown methods.
   */
  function SelectSeries(tables: MethodTables, instrument: string, fit: string): (r: Result<Series, CorrectionError>)
    ensures r.Success? <==> instrument in Instruments && fit in MethodNames
    ensures instrument !in Instruments ==> r == Failure(UnknownInstrument(instrument))
    ensures instrument in Instruments && fit !in MethodNames ==> r == Failure(UnknownMethod(fit))
    ensures r.Success? ==> r.value == (if fit == "gaussian" then tables.gaussian else tables.standard)
  {
    if instrument !in Instruments then Failure(UnknownInstrument(instrument))
    else
      match ParseMethod(fit)
      case None => Failure(UnknownMethod(fit))
      case Some(Default) => Success(tables.standard)
      case Some(Gaussian) => Success(tables.gaussian)
  }

  /** The series of `tables` chosen by `instrument` and `fit`, at the angle of `mlt`. */
  function Correction(tables: MethodTables, mlt: real, instrument: string, fit: string): Result<real, CorrectionError> {
    var s :- SelectSeries(tables, instrument, fit);
    Success(Evaluate(s, OcbTime.Hr2Rad(mlt)))
  }

  /** A correction over an array of local times: validated once, then element by element. */
  function CorrectionSeq(tables: MethodTables, mlts: seq<real>, instrument: string, fit: string): Result<seq<real>, CorrectionError> {
    var s :- SelectSeries(tables, instrument, fit);
    Success(Map(mlt => Evaluate(s, OcbTime.Hr2Rad(mlt)), mlts))
  }

  // ----------------------------------------------------- elliptical, harmonic

  /** `elliptical(mlt, instrument, fit)`. */
  function Elliptical(mlt: real, instrument: string, fit: string): (r: Result<real, CorrectionError>)
    ensures r.Success? <==> instrument in Instruments && fit in MethodNames
    ensures instrument !in Instruments ==> r == Failure(UnknownInstrument(instrument))
    ensures instrument in Instruments && fit !in MethodNames ==> r == Failure(UnknownMethod(fit))
  {
    Correction(EllipticalTables, mlt, instrument, fit)
  }

  /** `harmonic(mlt, instrument, fit)`. */
  function Harmonic(mlt: real, instrument: string, fit: string): (r: Result<real, CorrectionError>)
    ensures r.Success? <==> instrument in Instruments && fit in MethodNames
    ensures instrument !in Instruments ==> r == Failure(UnknownInstrument(instrument))
    ensures instrument in Instruments && fit !in MethodNames ==> r == Failure(UnknownMethod(fit))
  {
    Correction(HarmonicTables, mlt, instrument, fit)
  }

  /** `elliptical` on an array of local times. */
  function EllipticalSeq(mlts: seq<real>, instrument: string, fit: string): Result<seq<real>, CorrectionError> {
    CorrectionSeq(EllipticalTables, mlts, instrument, fit)
  }

  /** `harmonic` on an array of local times. */
  function HarmonicSeq(mlts: seq<real>, instrument: string, fit: string): Result<seq<real>, CorrectionError> {
    CorrectionSeq(HarmonicTables, mlts, instrument, fit)
  }

  // ---------------------------------------------------------------- lemmas

  /** Both corrections refuse `bad_kwarg` as an instrument and as a method. */
  lemma BadKeywordRefused(mlt: real, bad: string)
    requires bad == "bad_kwarg"
    ensures Elliptical(mlt, bad, "default") == Failure(UnknownInstrument(bad))
    ensures Harmonic(mlt, bad, "default") == Failure(UnknownInstrument(bad))
    ensures Elliptical(mlt, DefaultInstrument, bad) == Failure(UnknownMethod(bad))
    ensures Harmonic(mlt, DefaultInstrument, bad) == Failure(UnknownMethod(bad))
  {
    assert bad != DefaultInstrument && bad != "default" && bad != "gaussian" by {
      assert bad[0] == 'b';
    }
  }

  /**
   * The array form agrees with the scalar form: it fails exactly when the
   * scalar form does, with the same error, and otherwise has one value per
   * local time, the scalar correction of that local time.
   */
  lemma CorrectionSeqElementwise(tables: MethodTables, mlts: seq<real>, instrument: string, fit: string)
    ensures var r := CorrectionSeq(tables, mlts, instrument, fit);
            && (r.Failure? <==> SelectSeries(tables, instrument, fit).Failure?)
            && (r.Failure? ==> r.error == SelectSeries(tables, instrument, fit).error)
            && (r.Success? ==>
                  && |r.value| == |mlts|
                  && forall i :: 0 <= i < |mlts| ==> Correction(tables, mlts[i], instrument, fit) == Success(r.value[i]))
  {
  }

  /** `elliptical` and `harmonic` on an array: element `i` is the scalar correction of `mlts[i]`. */
  lemma CorrectionsElementwise(mlts: seq<real>, instrument: string, fit: string)
    ensures var r := EllipticalSeq(mlts, instrument, fit);
            r.Success? ==>
              && |r.value| == |mlts|
              && forall i :: 0 <= i < |mlts| ==> Elliptical(mlts[i], instrument, fit) == Success(r.value[i])
    ensures var r := HarmonicSeq(mlts, instrument, fit);
            r.Success? ==>
              && |r.value| == |mlts|
              && forall i :: 0 <= i < |mlts| ==> Harmonic(mlts[i], instrument, fit) == Success(r.value[i])
    ensures EllipticalSeq(mlts, instrument, fit).Failure? <==> Elliptical(0.0, instrument, fit).Failure?
    ensures HarmonicSeq(mlts, instrument, fit).Failure? <==> Harmonic(0.0, instrument, fit).Failure?
  {
    CorrectionSeqElementwise(EllipticalTables, mlts, instrument, fit);
    CorrectionSeqElementwise(HarmonicTables, mlts, instrument, fit);
  }

  /** `k` full turns do not change the cosine or the sine. */
  lemma {:induction false} TurnsInvariant(x: real, k: nat)
    requires TrigPeriodic()
    ensures Cos(x + (k as real) * (2.0 * OcbTime.Pi)) == Cos(x)
    ensures Sin(x + (k as real) * (2.0 * OcbTime.Pi)) == Sin(x)
    decreases k
  {
    if k > 0 {
      var y := x + ((k - 1) as real) * (2.0 * OcbTime.Pi);
      TurnsInvariant(x, k - 1);
      assert x + (k as real) * (2.0 * OcbTime.Pi) == Turn(y);
    }
  }

  /** The harmonics repeat when the angle goes once round. */
  lemma {:induction false} HarmonicsPeriodic(terms: seq<Term>, i: nat, theta: real)
    requires TrigPeriodic()
    ensures Harmonics(terms, i, theta + 2.0 * OcbTime.Pi) == Harmonics(terms, i, theta)
    decreases |terms|
  {
    if terms != [] {
      AngleTurns(i, theta);
      HarmonicsPeriodic(terms[1..], i + 1, theta);
    }
  }

  /** The `i`-th harmonic's angle goes `i` times round when `theta` goes once round. */
  lemma AngleTurns(i: nat, theta: real)
    requires TrigPeriodic()
    ensures Cos((i as real) * (theta + 2.0 * OcbTime.Pi)) == Cos((i as real) * theta)
    ensures Sin((i as real) * (theta + 2.0 * OcbTime.Pi)) == Sin((i as real) * theta)
  {
    Distribute(i as real, theta, 2.0 * OcbTime.Pi);
    TurnsInvariant((i as real) * theta, i);
  }

  lemma Distribute(k: real, x: real, y: real)
    ensures k * (x + y) == k * x + k * y
  {
  }

  /** A correction repeats every 24 hours of local time. */
  lemma CorrectionPeriodic(tables: MethodTables, mlt: real, instrument: string, fit: string)
    requires TrigPeriodic()
    ensures Correction(tables, mlt + 24.0, instrument, fit) == Correction(tables, mlt, instrument, fit)
  {
    var theta := OcbTime.Hr2Rad(mlt);
    assert OcbTime.Hr2Rad(mlt + 24.0) == theta + 2.0 * OcbTime.Pi;
    var s := SelectSeries(tables, instrument, fit);
    if s.Success? {
      HarmonicsPeriodic(s.value.terms, 1, theta);
    }
  }

  /** `elliptical` and `harmonic` repeat every 24 hours of local time. */
  lemma CorrectionsPeriodic(mlt: real, instrument: string, fit: string)
    requires TrigPeriodic()
    ensures Elliptical(mlt + 24.0, instrument, fit) == Elliptical(mlt, instrument, fit)
    ensures Harmonic(mlt + 24.0, instrument, fit) == Harmonic(mlt, instrument, fit)
  {
    CorrectionPeriodic(EllipticalTables, mlt, instrument, fit);
    CorrectionPeriodic(HarmonicTables, mlt, instrument, fit);
  }

  /** At a zero angle every cosine is one and every sine zero: the harmonics add up their cosine weights. */
  lemma {:induction false} HarmonicsAtZero(terms: seq<Term>, i: nat)
    requires TrigAtZero()
    ensures Harmonics(terms, i, 0.0) == CosineWeights(terms)
    decreases |terms|
  {
    if terms != [] {
      assert (i as real) * 0.0 == 0.0;
      HarmonicsAtZero(terms[1..], i + 1);
    }
  }

  /** At midnight (MLT 0) a correction is the constant term plus the cosine weights of the chosen table. */
  lemma CorrectionAtMidnight(tables: MethodTables, instrument: string, fit: string)
    requires TrigAtZero()
    ensures var r := Correction(tables, 0.0, instrument, fit);
            r.Success? ==> r.value == (if fit == "gaussian"
                                       then tables.gaussian.a0 + CosineWeights(tables.gaussian.terms)
                                       else tables.standard.a0 + CosineWeights(tables.standard.terms))
  {
    assert OcbTime.Hr2Rad(0.0) == 0.0;
    HarmonicsAtZero(tables.gaussian.terms, 1);
    HarmonicsAtZero(tables.standard.terms, 1);
  }

  /**
   * The `gaussian` fit selects its own table: where the two tables differ at
   * midnight, so do the two corrections.
   */
  lemma GaussianSelectsOwnTable(tables: MethodTables)
    requires TrigAtZero()
    requires tables.gaussian.a0 + CosineWeights(tables.gaussian.terms)
             != tables.standard.a0 + CosineWeights(tables.standard.terms)
    ensures Correction(tables, 0.0, DefaultInstrument, "gaussian").Success?
    ensures Correction(tables, 0.0, DefaultInstrument, "gaussian")
            != Correction(tables, 0.0, DefaultInstrument, "default")
  {
    CorrectionAtMidnight(tables, DefaultInstrument, "gaussian");
    CorrectionAtMidnight(tables, DefaultInstrument, "default");
  }
}
