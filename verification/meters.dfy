// Products of rates and times, kept apart from the proofs that use them.
module Meters {

  lemma Scale(d: real, x: real, y: real)
    requires d >= 0.0 && x <= y
    ensures d * x <= d * y
    ensures x >= 0.0 ==> d * x >= 0.0
  {
    assert d * (y - x) >= 0.0;
  }

  // What flows in at a constant rate by a given time.
  function Line(top: real): real -> real {
    (t: real) => top * t
  }

  lemma LineDifference(top: real, s: real, e: real)
    ensures Line(top)(e) - Line(top)(s) == top * (e - s)
  {}

  lemma LineGrows(top: real, x: real, y: real)
    requires top >= 0.0 && x <= y
    ensures Line(top)(x) <= Line(top)(y)
  {
    Scale(top, x, y);
  }
}
