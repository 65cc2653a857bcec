/** The derived-value formula over the older well record. */
module BakCalculations {
  import opened Entity

  /**
   * Rejects a non-positive pressure; otherwise the unrounded product
   * pressure * temperature * 0.85, with no upper bound on the pressure.
   */
  function ProcessWellData(well: BakWell): (r: Result<real>)
    ensures r.Failure? <==> well.pressure <= 0.0
    ensures r.Failure? ==> r.msg == "pressure must be positive"
    ensures r.Success? ==> r.value == well.pressure * well.temperature * 0.85
    ensures r.Success? ==> (r.value == 0.0 <==> well.temperature == 0.0)
    ensures r.Success? ==> (r.value > 0.0 <==> well.temperature > 0.0)
    ensures r.Success? ==> (r.value < 0.0 <==> well.temperature < 0.0)
  {
    if well.pressure <= 0.0 then Failure("pressure must be positive")
    else Success(well.pressure * well.temperature * 0.85)
  }

  /** Only the pressure and the temperature influence the result. */
  lemma ProcessWellDataReadsPressureAndTemperature(x: BakWell, y: BakWell)
    requires x.pressure == y.pressure && x.temperature == y.temperature
    ensures ProcessWellData(x) == ProcessWellData(y)
  {
    if x.pressure > 0.0 {
      assert ProcessWellData(x).value == ProcessWellData(y).value;
    }
  }
}
