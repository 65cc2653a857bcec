/** The derived-pressure formula over the current well record. */
module Calculations {
  import opened Entity

  /** 0.85, the efficiency factor of the formula. */
  const Efficiency: real := 0.85

  /**
   * Rejects a non-positive buffer pressure; otherwise the unrounded product
   * pbuf * temp * 0.85, with no upper bound on the pressure.
   */
  function ProcessWellData(well: Well): (r: Result<real>)
    ensures r.Failure? <==> well.pbuf <= 0.0
    ensures r.Failure? ==> r.msg == "pressure must be positive"
    ensures r.Success? ==> r.value == well.pbuf * well.temp * Efficiency
    ensures r.Success? ==> (r.value == 0.0 <==> well.temp == 0.0)
    ensures r.Success? ==> (r.value > 0.0 <==> well.temp > 0.0)
    ensures r.Success? ==> (r.value < 0.0 <==> well.temp < 0.0)
  {
    if well.pbuf <= 0.0 then Failure("pressure must be positive")
    else Success(well.pbuf * well.temp * Efficiency)
  }

  /** Only the buffer pressure and the temperature influence the result. */
  lemma ProcessWellDataReadsPbufAndTemp(x: Well, y: Well)
    requires x.pbuf == y.pbuf && x.temp == y.temp
    ensures ProcessWellData(x) == ProcessWellData(y)
  {
    if x.pbuf > 0.0 {
      assert ProcessWellData(x).value == ProcessWellData(y).value;
    }
  }
}
