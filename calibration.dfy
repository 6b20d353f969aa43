/** The calibration data point: one observed peak, with the acquisition
    metadata that the mass-error fit uses as covariates. All nine fields are
    set once when the point is built and never change afterwards, which a
    datatype value gives for free. The doubles are modelled as reals: the
    point does no arithmetic on them. */
module Calibration {
  import Text
  import opened Optional

  datatype DataPoint = DataPoint(
    mz: real,
    rt: real,
    msnOrder: int,
    intensity: real,
    selectedIonGuessChargeStateGuess: int,
    isolationMZ: real,
    totalIonCurrent: real,
    injectionTime: real,
    relativeMZ: real)

  /** The six-argument constructor. The charge-state guess, the isolation m/z
      and the relative m/z are never assigned, so they keep the default zero.
      Nothing is validated: every argument is accepted. */
  function NewDataPoint(mz: real, rt: real, msnOrder: int, intensity: real,
                        totalIonCurrent: real, injectionTime: real): (p: DataPoint)
    ensures p.mz == mz && p.rt == rt && p.msnOrder == msnOrder && p.intensity == intensity
    ensures p.totalIonCurrent == totalIonCurrent && p.injectionTime == injectionTime
    ensures p.selectedIonGuessChargeStateGuess == 0 && p.isolationMZ == 0.0 && p.relativeMZ == 0.0
  {
    DataPoint(mz, rt, msnOrder, intensity, 0, 0.0, totalIonCurrent, injectionTime, 0.0)
  }

  /** The nine-argument constructor: it delegates the six shared fields to the
      six-argument constructor and then sets the remaining three. */
  function NewFullDataPoint(mz: real, rt: real, msnOrder: int, intensity: real,
                            totalIonCurrent: real, injectionTime: real,
                            selectedIonGuessChargeStateGuess: int, isolationMZ: real,
                            relativeMZ: real): (p: DataPoint)
    ensures p.mz == mz && p.rt == rt && p.msnOrder == msnOrder && p.intensity == intensity
    ensures p.totalIonCurrent == totalIonCurrent && p.injectionTime == injectionTime
    ensures p.selectedIonGuessChargeStateGuess == selectedIonGuessChargeStateGuess
    ensures p.isolationMZ == isolationMZ && p.relativeMZ == relativeMZ
  {
    NewDataPoint(mz, rt, msnOrder, intensity, totalIonCurrent, injectionTime)
      .(selectedIonGuessChargeStateGuess := selectedIonGuessChargeStateGuess,
        isolationMZ := isolationMZ, relativeMZ := relativeMZ)
  }

  /** The six-argument constructor is the nine-argument one with zero for the three extra fields. */
  lemma ShortConstructorIsFullWithZeros(mz: real, rt: real, msnOrder: int, intensity: real,
                                        totalIonCurrent: real, injectionTime: real)
    ensures NewDataPoint(mz, rt, msnOrder, intensity, totalIonCurrent, injectionTime)
         == NewFullDataPoint(mz, rt, msnOrder, intensity, totalIonCurrent, injectionTime, 0, 0.0, 0.0)
  {
  }

  /** Every point is built by the nine-argument constructor from its own fields:
      construction loses nothing and two points with the same arguments are equal. */
  lemma FullConstructorRebuildsEveryPoint(p: DataPoint)
    ensures p == NewFullDataPoint(p.mz, p.rt, p.msnOrder, p.intensity, p.totalIonCurrent,
                                  p.injectionTime, p.selectedIonGuessChargeStateGuess,
                                  p.isolationMZ, p.relativeMZ)
  {
  }

  /** DataPoint.ToString: "(" mz "," rt ")". The culture-dependent text of a
      double is the parameter formatNumber; only mz and rt are shown. */
  function ToString(p: DataPoint, formatNumber: real -> string): (s: string)
    ensures |s| == |formatNumber(p.mz)| + |formatNumber(p.rt)| + 3
    ensures s[0] == '(' && s[|s| - 1] == ')'
  {
    "(" + formatNumber(p.mz) + "," + formatNumber(p.rt) + ")"
  }

  /** Reads the two numbers' texts back from "(" a "," b ")", splitting at the first comma. */
  function ParsePair(s: string): (r: Option<(string, string)>)
    ensures r.Some? ==> s == "(" + r.value.0 + "," + r.value.1 + ")"
  {
    if |s| < 2 || s[0] != '(' || s[|s| - 1] != ')' then None
    else
      var inner := s[1..|s| - 1];
      var parts := Text.Split(inner, ',');
      if |parts| < 2 then None
      else
        Text.JoinSplit(inner, ',');
        assert Text.Join(parts, ',') == parts[0] + "," + Text.Join(parts[1..], ',');
        assert s == "(" + inner + ")";
        Some((parts[0], Text.Join(parts[1..], ',')))
  }

  /** The text depends on mz and rt alone, and when the text of mz holds no comma
      both numbers' texts can be read back from it. With a culture whose decimal
      separator is a comma the text of mz contains one, and the pair is ambiguous. */
  lemma ToStringShowsMzAndRt(p: DataPoint, q: DataPoint, formatNumber: real -> string)
    requires ',' !in formatNumber(p.mz)
    ensures ParsePair(ToString(p, formatNumber)) == Some((formatNumber(p.mz), formatNumber(p.rt)))
    ensures p.mz == q.mz && p.rt == q.rt ==> ToString(p, formatNumber) == ToString(q, formatNumber)
  {
    var a, b := formatNumber(p.mz), formatNumber(p.rt);
    var s := ToString(p, formatNumber);
    assert s[1..|s| - 1] == a + [','] + b;
    Text.SplitAtSeparator(a, b, ',');
    Text.SplitWithoutSeparator(a, ',');
    Text.JoinSplit(b, ',');
    var parts := Text.Split(a + [','] + b, ',');
    assert parts == [a] + Text.Split(b, ',');
    assert parts[1..] == Text.Split(b, ',');
  }
}
