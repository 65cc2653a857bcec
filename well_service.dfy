/**
 * The well service: validation, the derived maximum pressure, and the
 * check-then-write sequences over the repository.
 */
module Service {
  import opened Entity
  import opened Rounding
  import Calculations
  import opened WellRepo
  import Validation

  /** How a service call ends; a missing well is told apart from every failure. */
  datatype Outcome<T> =
    | Ok(value: T)
    | InvalidInput(reason: string)
    | NotFound
    | CalcError(reason: string)
    | RepoError(reason: string)

  const EmptyName: string := "well name cannot be empty"
  /** The message the diameter check reports (it speaks of pressure). */
  const NotPositive: string := "pressure must be positive"
  const BelowAbsoluteZero: string := "temperature cannot be below absolute zero"
  const InvalidId: string := "invalid well ID"
  const TooHigh: string := "pressure exceeds maximum allowed value"

  /** The lowest temperature is excluded: -273.15 itself is rejected. */
  const AbsoluteZero: real := -273.15
  const MaxPressure: real := 1000.0

  function CalcFailed(msg: string): string { "calculation failed: " + msg }
  function RepoFailed(msg: string): string { "repository error: " + msg }

  /**
   * The derived maximum pressure: rejected above 1000; otherwise
   * pressure * temperature * 0.85 rounded half away from zero to two decimals.
   * There is no lower bound on the pressure.
   */
  function CalculateWellParameters(pressure: real, temperature: real): (r: Result<real>)
    ensures r.Failure? <==> pressure > MaxPressure
    ensures r.Failure? ==> r.msg == TooHigh
    ensures r.Success? ==>
      && r.value * 100.0 == (r.value * 100.0).Floor as real
      && IsHalfAwayRounding(pressure * temperature * 0.85 * 100.0, (r.value * 100.0).Floor)
      && -0.005 <= r.value - pressure * temperature * 0.85 <= 0.005
  {
    if pressure > MaxPressure then Failure(TooHigh)
    else Success(Round2(pressure * temperature * 0.85))
  }

  /** Pressure 100 at temperature 20 gives 1700; pressure 1500 is refused; a negative pressure is not. */
  lemma CalculationExamples()
    ensures CalculateWellParameters(100.0, 20.0) == Success(1700.0)
    ensures CalculateWellParameters(1500.0, 20.0) == Failure(TooHigh)
    ensures CalculateWellParameters(-5.0, 20.0) == Success(-85.0)
  {
    RoundOfInteger(170000);
    RoundOfInteger(-8500);
    assert 100.0 * 20.0 * 0.85 * 100.0 == 170000 as real;
    assert -5.0 * 20.0 * 0.85 * 100.0 == -8500 as real;
  }

  /**
   * Within 0 < pressure <= 1000 the service's value is the standalone
   * formula's, rounded to two decimals.
   */
  lemma CalculationRoundsProcessWellData(w: Well)
    requires 0.0 < w.pbuf <= MaxPressure
    ensures Calculations.ProcessWellData(w).Success?
    ensures CalculateWellParameters(w.pbuf, w.temp) == Success(Round2(Calculations.ProcessWellData(w).value))
  {
    CalculationIsRoundedProduct(w.pbuf, w.temp, Calculations.ProcessWellData(w).value);
  }

  lemma CalculationIsRoundedProduct(pressure: real, temperature: real, product: real)
    requires pressure <= MaxPressure && product == pressure * temperature * 0.85
    ensures CalculateWellParameters(pressure, temperature) == Success(Round2(product))
  {
  }

  /**
   * The creation checks, in order: a name that is not the empty string (no
   * trimming), a positive diameter, a temperature above absolute zero.
   */
  function CheckNewWell(well: Well): (err: Outcome<()>)
    ensures err.Ok? <==> well.name != "" && well.diameter > 0.0 && well.temp > AbsoluteZero
    ensures well.name == "" ==> err == InvalidInput(EmptyName)
    ensures well.name != "" && well.diameter <= 0.0 ==> err == InvalidInput(NotPositive)
    ensures well.name != "" && well.diameter > 0.0 && well.temp <= AbsoluteZero ==> err == InvalidInput(BelowAbsoluteZero)
  {
    if well.name == "" then InvalidInput(EmptyName)
    else if well.diameter <= 0.0 then InvalidInput(NotPositive)
    else if well.temp <= AbsoluteZero then InvalidInput(BelowAbsoluteZero)
    else Ok(())
  }

  /** The name check is exact emptiness: a name of one space passes it, although it is blank once trimmed. */
  lemma NameCheckIsNotTrimmed(well: Well)
    requires well.name == " " && well.diameter > 0.0 && well.temp > AbsoluteZero
    ensures CheckNewWell(well).Ok? && !Validation.NotBlank(well.name)
  {
  }

  /** Buffer pressure or temperature differ from the stored record. */
  predicate InputsChanged(well: Well, existing: Well)
  {
    well.pbuf != existing.pbuf || well.temp != existing.temp
  }

  /**
   * The record an update writes: the maximum pressure is recomputed from the
   * new inputs when they changed, and otherwise the supplied value is kept
   * and no calculation takes place.
   */
  function RecomputePmax(well: Well, existing: Well): (r: Result<Well>)
    ensures !InputsChanged(well, existing) ==> r == Success(well)
    ensures InputsChanged(well, existing) ==> (r.Failure? <==> well.pbuf > MaxPressure)
    ensures r.Failure? ==> r.msg == TooHigh
    ensures r.Success? ==> r.value == well.(pmax := r.value.pmax)
    ensures r.Success? && InputsChanged(well, existing) ==>
              r.value.pmax == CalculateWellParameters(well.pbuf, well.temp).value
  {
    if InputsChanged(well, existing) then
      match CalculateWellParameters(well.pbuf, well.temp)
      case Failure(m) => Failure(m)
      case Success(v) => Success(well.(pmax := v))
    else Success(well)
  }

  /** With buffer pressure and temperature untouched, even a pressure above the ceiling passes. */
  lemma UnchangedInputsSkipCalculation(well: Well, existing: Well)
    requires well.pbuf == existing.pbuf && well.temp == existing.temp
    ensures RecomputePmax(well, existing) == Success(well)
    ensures well.pbuf > MaxPressure ==> CalculateWellParameters(well.pbuf, well.temp).Failure?
  {
  }

  /** The service, holding the repository it drives. */
  class WellService {
    const repo: WellTable

    constructor (repo: WellTable)
      ensures this.repo == repo
    {
      this.repo := repo;
    }

    /**
     * Validates, computes the maximum pressure, stores the record. Every
     * failure leaves the store as it was; on success the record returned is
     * the stored one, carrying the identity and creation time the store gave it.
     */
    method CreateWell(well: Well) returns (r: Outcome<Well>)
      requires repo.Valid()
      modifies repo
      ensures repo.Valid() && repo.online == old(repo.online) && repo.writable == old(repo.writable)
      ensures CheckNewWell(well).InvalidInput? ==> r == InvalidInput(CheckNewWell(well).reason) && unchanged(repo)
      ensures CheckNewWell(well).Ok? && well.pbuf > MaxPressure ==>
                r == CalcError(CalcFailed(TooHigh)) && unchanged(repo)
      ensures CheckNewWell(well).Ok? && well.pbuf <= MaxPressure && !old(repo.online) ==>
                r == RepoError(RepoFailed(Unavailable)) && unchanged(repo)
      ensures CheckNewWell(well).Ok? && well.pbuf <= MaxPressure && old(repo.online) && !old(repo.writable) ==>
                r == RepoError(RepoFailed(WriteRejected)) && unchanged(repo)
      ensures r.Ok? <==> CheckNewWell(well).Ok? && well.pbuf <= MaxPressure && old(repo.online) && old(repo.writable)
      ensures r.Ok? ==>
        && r.value == well.(pmax := CalculateWellParameters(well.pbuf, well.temp).value,
                            id := old(repo.nextId), createdAt := repo.clock)
        && r.value.id > 0 && r.value.id !in old(repo.rows)
        && repo.nextId == old(repo.nextId) + 1 && repo.clock == old(repo.clock) + 1
        && repo.rows == old(repo.rows)[r.value.id := r.value.(result := 0.0, updatedAt := repo.clock)]
    {
      var check := CheckNewWell(well);
      if check.InvalidInput? {
        return InvalidInput(check.reason);
      }
      var derived := CalculateWellParameters(well.pbuf, well.temp);
      if derived.Failure? {
        return CalcError(CalcFailed(derived.msg));
      }
      var withPmax := well.(pmax := derived.value);
      var stored := repo.Create(withPmax);
      if stored.Failure? {
        return RepoError(RepoFailed(stored.msg));
      }
      r := Ok(stored.value);
    }

    /** A positive identity is looked up; an absent row is "not found", not a failure. */
    method GetWell(id: int) returns (r: Outcome<Well>)
      requires repo.Valid()
      ensures id <= 0 ==> r == InvalidInput(InvalidId)
      ensures id > 0 && !repo.online ==> r == RepoError(RepoFailed(Unavailable))
      ensures id > 0 && repo.online && id in repo.rows ==> r == Ok(repo.rows[id])
      ensures id > 0 && repo.online && id !in repo.rows ==> r == NotFound
      ensures r.Ok? ==> r.value.id == id
    {
      if id <= 0 {
        return InvalidInput(InvalidId);
      }
      var fetched := repo.GetByID(id);
      match fetched {
        case FetchFailed(m) => r := RepoError(RepoFailed(m));
        case Missing => r := NotFound;
        case Found(w) => r := Ok(w);
      }
    }

    /**
     * Fetches the stored record, requires a positive buffer pressure,
     * recomputes the maximum pressure only when buffer pressure or
     * temperature changed, then writes the record.
     */
    method UpdateWell(well: Well) returns (r: Outcome<Well>)
      requires repo.Valid()
      modifies repo
      ensures repo.Valid() && repo.online == old(repo.online) && repo.writable == old(repo.writable)
      ensures !old(repo.online) ==> r == RepoError(RepoFailed(Unavailable)) && unchanged(repo)
      ensures old(repo.online) && well.id !in old(repo.rows) ==> r == NotFound && unchanged(repo)
      ensures old(repo.online) && well.id in old(repo.rows) && well.pbuf <= 0.0 ==>
                r == InvalidInput(NotPositive) && unchanged(repo)
      ensures old(repo.online) && well.id in old(repo.rows) && well.pbuf > 0.0 ==>
        var existing := old(repo.rows)[well.id];
        match RecomputePmax(well, existing)
        case Failure(m) => r == CalcError(CalcFailed(m)) && unchanged(repo)
        case Success(w) =>
          if !old(repo.writable) then
            r == RepoError(RepoFailed(WriteRejected)) && unchanged(repo)
          else
            && r == Ok(w)
            && repo.rows == old(repo.rows)[well.id := w.(createdAt := existing.createdAt,
                                                        result := existing.result,
                                                        updatedAt := repo.clock)]
            && repo.clock == old(repo.clock) + 1
            && repo.nextId == old(repo.nextId)
      ensures !r.Ok? ==> unchanged(repo)
    {
      var fetched := repo.GetByID(well.id);
      if fetched.FetchFailed? {
        return RepoError(RepoFailed(fetched.msg));
      }
      if fetched.Missing? {
        return NotFound;
      }
      var existing := fetched.well;
      if well.pbuf <= 0.0 {
        return InvalidInput(NotPositive);
      }
      var toWrite := well;
      if well.pbuf != existing.pbuf || well.temp != existing.temp {
        var derived := CalculateWellParameters(well.pbuf, well.temp);
        if derived.Failure? {
          return CalcError(CalcFailed(derived.msg));
        }
        toWrite := well.(pmax := derived.value);
      }
      var written := repo.Update(toWrite);
      match written {
        case WriteFailed(m) => r := RepoError(RepoFailed(m));
        case NoRows => r := RepoError(RepoFailed(UpdateNoRows));
        case Written => r := Ok(toWrite);
      }
    }

    /**
     * A positive identity is checked against the store and then deleted.
     * The existence check only catches store failures; a missing row is
     * reported by the delete itself, whose error is passed on unwrapped.
     */
    method DeleteWell(id: int) returns (r: Outcome<()>)
      requires repo.Valid()
      modifies repo
      ensures repo.Valid() && repo.online == old(repo.online) && repo.writable == old(repo.writable)
      ensures id <= 0 ==> r == InvalidInput(InvalidId) && unchanged(repo)
      ensures id > 0 && !old(repo.online) ==> r == RepoError(RepoFailed(Unavailable)) && unchanged(repo)
      ensures id > 0 && old(repo.online) && !old(repo.writable) ==> r == RepoError(WriteRejected) && unchanged(repo)
      ensures id > 0 && old(repo.online) && old(repo.writable) && id !in old(repo.rows) ==> r == NotFound && unchanged(repo)
      ensures id > 0 && old(repo.online) && old(repo.writable) && id in old(repo.rows) ==>
                r == Ok(()) && repo.rows == old(repo.rows) - {id}
                && repo.nextId == old(repo.nextId) && repo.clock == old(repo.clock)
    {
      if id <= 0 {
        return InvalidInput(InvalidId);
      }
      var fetched := repo.GetByID(id);
      if fetched.FetchFailed? {
        return RepoError(RepoFailed(fetched.msg));
      }
      var deleted := repo.Delete(id);
      match deleted {
        case WriteFailed(m) => r := RepoError(m);
        case NoRows => r := NotFound;
        case Written => r := Ok(());
      }
    }

    /** The repository's page, passed through; its failures are wrapped. */
    method ListWells(limit: int, offset: int) returns (r: Outcome<seq<Well>>)
      requires repo.Valid()
      ensures r.Ok? <==> repo.online && limit >= 0 && offset >= 0
      ensures !repo.online ==> r == RepoError(RepoFailed(Unavailable))
      ensures repo.online && offset < 0 ==> r == RepoError(RepoFailed(NegativeOffset))
      ensures repo.online && offset >= 0 && limit < 0 ==> r == RepoError(RepoFailed(NegativeLimit))
      ensures r.Ok? ==> |r.value| <= limit && NewestFirst(r.value)
      ensures r.Ok? ==>
        var all := repo.Ordered();
        && |r.value| == (if offset >= |all| then 0 else if |all| - offset < limit then |all| - offset else limit)
        && forall k :: 0 <= k < |r.value| ==> r.value[k] == Summary(all[offset + k])
    {
      var page := repo.List(limit, offset);
      match page {
        case Failure(m) => r := RepoError(RepoFailed(m));
        case Success(wells) => r := Ok(wells);
      }
    }
  }

  /**
   * A caller's view of the lifecycle: create with pressure 100 at 20 degrees,
   * change only the location, delete, delete again.
   */
  method Lifecycle(store: WellTable, well: Well)
    requires store.Valid() && store.online && store.writable
    requires well.name != "" && well.diameter > 0.0 && well.pbuf == 100.0 && well.temp == 20.0
    modifies store
  {
    var service := new WellService(store);
    CalculationExamples();
    var created := service.CreateWell(well);
    assert created.Ok? && created.value.pmax == 1700.0;
    var id := created.value.id;
    var fetched := service.GetWell(id);
    assert fetched.Ok? && fetched.value.pmax == 1700.0;
    var edited := fetched.value.(location := "north field");
    var updated := service.UpdateWell(edited);
    assert updated == Ok(edited) && store.rows[id].pmax == 1700.0;
    var gone := service.DeleteWell(id);
    assert gone == Ok(());
    var again := service.DeleteWell(id);
    assert again == NotFound;
    var missing := service.GetWell(id);
    assert missing == NotFound;
  }
}
