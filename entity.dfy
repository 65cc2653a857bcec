/** The well record and the small result type shared by every layer. */
module Entity {

  /** A value or the text of the error that replaced it (Go's `(T, error)` pair). */
  datatype Result<T> = Success(value: T) | Failure(msg: string)

  /**
   * A row of the `wells` table: the 22 columns written by INSERT and UPDATE
   * (name through status), plus the identity, the `result` column and the two
   * store-managed timestamps, here ticks of a logical clock. Every float64 of
   * the source is a `real`; `status` is opaque text.
   */
  datatype Well = Well(
    id: int,
    name: string,
    location: string,
    gammaG: real,
    temp: real,
    tempUst: real,
    depth: real,
    pbuf: real,
    ptb: real,
    ppl: real,
    pz: real,
    q: real,
    roughness: real,
    diameter: real,
    a: real,
    b: real,
    mu: real,
    wgf: real,
    rog: real,
    hw: real,
    qmin: real,
    pmax: real,
    status: string,
    result: real,
    createdAt: nat,
    updatedAt: nat)

  /** The well a caller builds before it is stored: no identity, no derived values, no timestamps. */
  function Blank(): Well
  {
    Well(0, "", "", 0.0, 0.0, 0.0, 0.0, 0.0, 0.0, 0.0, 0.0, 0.0, 0.0, 0.0, 0.0, 0.0, 0.0,
         0.0, 0.0, 0.0, 0.0, 0.0, "", 0.0, 0, 0)
  }

  /** The 22 data columns that INSERT and UPDATE write agree in `x` and `y`. */
  predicate SameColumns(x: Well, y: Well)
  {
    && x.name == y.name && x.location == y.location && x.gammaG == y.gammaG
    && x.temp == y.temp && x.tempUst == y.tempUst && x.depth == y.depth
    && x.pbuf == y.pbuf && x.ptb == y.ptb && x.ppl == y.ppl && x.pz == y.pz
    && x.q == y.q && x.roughness == y.roughness && x.diameter == y.diameter
    && x.a == y.a && x.b == y.b && x.mu == y.mu && x.wgf == y.wgf
    && x.rog == y.rog && x.hw == y.hw && x.qmin == y.qmin
    && x.pmax == y.pmax && x.status == y.status
  }

  /**
   * The record of the older table layout the legacy calculation works on
   * (columns id, name, pressure, temperature, result, created_at, updated_at).
   */
  datatype BakWell = BakWell(
    id: int,
    name: string,
    pressure: real,
    temperature: real,
    result: real,
    createdAt: nat,
    updatedAt: nat)
}
