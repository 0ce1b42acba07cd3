/**
 * `ParkingSpotController`: the five endpoints under `/api/vaga` and the
 * handler that turns a failed `@Valid` into a 400 body. Each request is one
 * sequential step on the service's table.
 */
module Controller {
  import opened Wrappers
  import opened Dtos
  import opened Models
  import Repository
  import opened Service

  /** The three 409 messages of the create endpoint, as tags. */
  datatype ConflictReason = DuplicateLicensePlate | DuplicateParkingSpotNumber | DuplicateApartmentBlock
  {
    /** Position of the rule in the order the endpoint checks them. */
    function Rank(): nat {
      match this
      case DuplicateLicensePlate => 0
      case DuplicateParkingSpotNumber => 1
      case DuplicateApartmentBlock => 2
    }
  }

  /** The status and body of a response; the Portuguese texts are tags. */
  datatype Response =
    | Created(spot: ParkingSpotModel)             // 201, "Cadastrado:" + the saved row
    | Conflict(reason: ConflictReason)            // 409
    | BadRequest(errors: map<Field, Message>)     // 400, from the exception handler
    | NotFound                                    // 404
    | Found(spot: ParkingSpotModel)               // 200, get-one
    | Listed(spots: seq<ParkingSpotModel>)        // 200, list
    | Updated(spot: ParkingSpotModel)             // 200, the saved row
    | Deleted                                     // 200, confirmation text

  /** Rule `c` is broken: some row already holds what `d` asks for. */
  predicate Violates(t: Repository.Table, d: ParkingSpotDto, c: ConflictReason) {
    match c
    case DuplicateLicensePlate => Repository.ExistsByLicensePlateCar(t, d.licensePlateCar)
    case DuplicateParkingSpotNumber => Repository.ExistsByParkingSpotNumber(t, d.parkingSpotNumber)
    case DuplicateApartmentBlock => Repository.ExistsByApartmentAndBlock(t, d.apartment, d.block)
  }

  /** Row `m` shares the plate, the spot or the apartment and block with `d`. */
  predicate Clashes(m: ParkingSpotModel, d: ParkingSpotDto) {
    || m.licensePlateCar == d.licensePlateCar
    || m.parkingSpotNumber == d.parkingSpotNumber
    || (m.apartment == d.apartment && m.block == d.block)
  }

  /** The create endpoint's if/else-if chain over the three queries. */
  function CheckConflicts(t: Repository.Table, d: ParkingSpotDto): (r: Option<ConflictReason>)
    ensures r.Some? ==> Violates(t, d, r.value)
  {
    if Repository.ExistsByLicensePlateCar(t, d.licensePlateCar) then Some(DuplicateLicensePlate)
    else if Repository.ExistsByParkingSpotNumber(t, d.parkingSpotNumber) then Some(DuplicateParkingSpotNumber)
    else if Repository.ExistsByApartmentAndBlock(t, d.apartment, d.block) then Some(DuplicateApartmentBlock)
    else None
  }

  /**
   * The chain reports rule `c` exactly when `c` is broken and every rule
   * before it in the fixed order (plate, spot, apartment and block) holds:
   * a single reason, the first broken one.
   */
  lemma ReportsFirstViolatedRule(t: Repository.Table, d: ParkingSpotDto)
    ensures forall c: ConflictReason :: CheckConflicts(t, d) == Some(c) <==>
              Violates(t, d, c) && forall c': ConflictReason :: c'.Rank() < c.Rank() ==> !Violates(t, d, c')
    ensures CheckConflicts(t, d).None? <==> forall c: ConflictReason :: !Violates(t, d, c)
  {
    forall c: ConflictReason
      ensures CheckConflicts(t, d) == Some(c) <==>
                Violates(t, d, c) && forall c': ConflictReason :: c'.Rank() < c.Rank() ==> !Violates(t, d, c')
    {
      EarlierRules(t, d, c);
    }
    forall c: ConflictReason | CheckConflicts(t, d).None? ensures !Violates(t, d, c) {
      EarlierRules(t, d, c);
    }
  }

  /** The rules ranked before `c`, spelled out. */
  lemma EarlierRules(t: Repository.Table, d: ParkingSpotDto, c: ConflictReason)
    ensures (forall c': ConflictReason :: c'.Rank() < c.Rank() ==> !Violates(t, d, c')) <==>
              (c.Rank() > 0 ==> !Violates(t, d, DuplicateLicensePlate))
              && (c.Rank() > 1 ==> !Violates(t, d, DuplicateParkingSpotNumber))
    ensures CheckConflicts(t, d) == Some(c) ==> Violates(t, d, c)
    ensures CheckConflicts(t, d).None? ==> !Violates(t, d, c)
  {
  }

  /** A create is approved exactly when the body clashes with no stored row. */
  lemma ApprovedIffNoClash(t: Repository.Table, d: ParkingSpotDto)
    ensures CheckConflicts(t, d).None? <==> forall k :: k in t ==> !Clashes(t[k], d)
  {
  }

  /** No two rows share a plate, a spot number or an apartment and block. */
  ghost predicate NoDuplicates(t: Repository.Table) {
    forall j, k :: j in t && k in t && j != k ==>
      && t[j].licensePlateCar != t[k].licensePlateCar
      && t[j].parkingSpotNumber != t[k].parkingSpotNumber
      && (t[j].apartment != t[k].apartment || t[j].block != t[k].block)
  }

  /**
   * The row a create stores: the body's ten properties, the clock's time,
   * and no id yet (the store assigns it).
   */
  function NewSpot(d: ParkingSpotDto, now: Timestamp): (m: ParkingSpotModel)
    ensures forall f :: m.Get(f) == d.Get(f)
    ensures m.id.None? && m.registrationDate == Some(now)
  {
    CopyProperties(d).(registrationDate := Some(now))
  }

  /**
   * The row an update stores: the body's ten properties, with the id and
   * registration time of the row it replaces.
   */
  function UpdatedSpot(existing: ParkingSpotModel, d: ParkingSpotDto): (m: ParkingSpotModel)
    ensures forall f :: m.Get(f) == d.Get(f)
    ensures m.id == existing.id && m.registrationDate == existing.registrationDate
  {
    var m := CopyProperties(d);
    m.(id := existing.id, registrationDate := existing.registrationDate)
  }

  /**
   * An approved create keeps the table free of duplicates, whatever fresh
   * id the store gives the new row.
   */
  lemma CreatePreservesNoDuplicates(t: Repository.Table, d: ParkingSpotDto, now: Timestamp, k: int)
    requires NoDuplicates(t)
    requires CheckConflicts(t, d).None?
    requires k !in t
    ensures NoDuplicates(t[k := NewSpot(d, now).(id := Some(k))])
  {
    var m := NewSpot(d, now).(id := Some(k));
    var t' := t[k := m];
    ApprovedIffNoClash(t, d);
    forall i, j | i in t' && j in t' && i != j
      ensures t'[i].licensePlateCar != t'[j].licensePlateCar
      ensures t'[i].parkingSpotNumber != t'[j].parkingSpotNumber
      ensures t'[i].apartment != t'[j].apartment || t'[i].block != t'[j].block
    {
      if i == k {
        assert !Clashes(t[j], d);
      } else if j == k {
        assert !Clashes(t[i], d);
      }
    }
  }

  /**
   * Update runs no uniqueness check: a duplicate-free table can receive,
   * through update, a second row with a plate already in use.
   */
  lemma UpdateSkipsUniquenessCheck()
    ensures exists t: Repository.Table, id: int, d: ParkingSpotDto ::
              && NoDuplicates(t) && id in t
              && !NoDuplicates(t[id := UpdatedSpot(t[id], d)])
  {
    var x := ParkingSpotModel(Some(1), Some("1"), Some("AAA0001"), Some("Fiat"), Some("Uno"), Some("red"),
                              Some("Ana"), Some("101"), Some("A"), Some("ana@x.br"), Some("52998224725"),
                              Some(Timestamp(0)));
    var y := x.(id := Some(2), parkingSpotNumber := Some("2"), licensePlateCar := Some("BBB0002"),
                apartment := Some("202"));
    var t := map[1 := x, 2 := y];
    var d := ParkingSpotDto(Some("3"), Some("AAA0001"), Some("VW"), Some("Gol"), Some("blue"),
                            Some("Bia"), Some("303"), Some("B"), Some("bia@x.br"), Some("11144477735"));
    var t' := t[2 := UpdatedSpot(t[2], d)];
    assert NoDuplicates(t);
    assert t'[1].licensePlateCar == t'[2].licensePlateCar;
  }

  /**
   * The message map of the 400 body: each error put in turn, so a later
   * error about the same property overwrites an earlier one.
   */
  function ErrorMap(errors: seq<FieldError>): map<Field, Message>
  {
    if errors == [] then map[]
    else
      var last := errors[|errors| - 1];
      ErrorMap(errors[..|errors| - 1])[last.field := last.message]
  }

  /** No later error of the list is about the same property as error `i`. */
  predicate IsLastFor(errors: seq<FieldError>, i: int) {
    0 <= i < |errors| && forall j :: i < j < |errors| ==> errors[j].field != errors[i].field
  }

  /** The 400 body has an entry exactly for the properties with an error. */
  lemma {:induction false} ErrorMapKeys(errors: seq<FieldError>)
    ensures forall f :: f in ErrorMap(errors) <==> exists i :: 0 <= i < |errors| && errors[i].field == f
    decreases |errors|
  {
    if errors != [] {
      var init := errors[..|errors| - 1];
      ErrorMapKeys(init);
      forall f | exists i :: 0 <= i < |errors| && errors[i].field == f
        ensures f in ErrorMap(errors)
      {
        var i :| 0 <= i < |errors| && errors[i].field == f;
        if i < |errors| - 1 {
          assert init[i].field == f;
        }
      }
      forall f | f in ErrorMap(errors)
        ensures exists i :: 0 <= i < |errors| && errors[i].field == f
      {
        if f != errors[|errors| - 1].field {
          assert f in ErrorMap(init);
          var i :| 0 <= i < |init| && init[i].field == f;
          assert errors[i].field == f;
        }
      }
    }
  }

  /**
   * Where a property has several errors, its entry holds the message of
   * the one listed last.
   */
  lemma {:induction false} ErrorMapLastWins(errors: seq<FieldError>)
    ensures forall i :: IsLastFor(errors, i) ==>
              errors[i].field in ErrorMap(errors) && ErrorMap(errors)[errors[i].field] == errors[i].message
    decreases |errors|
  {
    if errors != [] {
      var init := errors[..|errors| - 1];
      ErrorMapLastWins(init);
      forall i | IsLastFor(errors, i)
        ensures errors[i].field in ErrorMap(errors) && ErrorMap(errors)[errors[i].field] == errors[i].message
      {
        if i < |errors| - 1 {
          assert IsLastFor(init, i);
        }
      }
    }
  }

  /** Every entry of the 400 body is one of the listed errors. */
  lemma {:induction false} ErrorMapValuesListed(errors: seq<FieldError>)
    ensures forall f :: f in ErrorMap(errors) ==> FieldError(f, ErrorMap(errors)[f]) in errors
    decreases |errors|
  {
    if errors != [] {
      var init := errors[..|errors| - 1];
      ErrorMapValuesListed(init);
      forall f | f in ErrorMap(errors) && f != errors[|errors| - 1].field
        ensures FieldError(f, ErrorMap(errors)[f]) in errors
      {
        assert FieldError(f, ErrorMap(init)[f]) in init;
      }
    }
  }

  class ParkingSpotController {
    const service: ParkingSpotService
    /** The address syntax behind `@Email`. */
    const isEmail: string -> bool
    /** The CPF checksum rule behind `@CPF`. */
    const isCpf: string -> bool

    constructor (service: ParkingSpotService, isEmail: string -> bool, isCpf: string -> bool)
      ensures this.service == service && this.isEmail == isEmail && this.isCpf == isCpf
    {
      this.service := service;
      this.isEmail := isEmail;
      this.isCpf := isCpf;
    }

    /**
     * `handleValidationExceptionBadRequest`: puts every error of the binding
     * result into a fresh map, in order, so that the map is `ErrorMap`: one
     * entry per property that has an error, the last listed message winning.
     */
    static method HandleValidationExceptionBadRequest(errors: seq<FieldError>) returns (body: map<Field, Message>)
      ensures body == ErrorMap(errors)
      ensures forall f :: f in body <==> exists i :: 0 <= i < |errors| && errors[i].field == f
      ensures forall i :: IsLastFor(errors, i) ==> errors[i].field in body && body[errors[i].field] == errors[i].message
    {
      body := map[];
      var n := 0;
      while n < |errors|
        invariant 0 <= n <= |errors|
        invariant body == ErrorMap(errors[..n])
      {
        assert errors[..n + 1][..n] == errors[..n];
        body := body[errors[n].field := errors[n].message];
        n := n + 1;
      }
      assert errors[..n] == errors;
      ErrorMapKeys(errors);
      ErrorMapLastWins(errors);
    }

    /**
     * The `@Valid` step before a create or update body reaches the endpoint:
     * a body breaking a constraint is turned, through the exception handler,
     * into a map with one entry per failing property.
     */
    method ValidateRequestBody(dto: ParkingSpotDto) returns (rejected: Option<map<Field, Message>>)
      ensures rejected.None? <==> IsValid(dto, isEmail, isCpf)
      ensures rejected.Some? ==> forall f :: f in rejected.value <==> !FieldOk(dto, f, isEmail, isCpf)
      ensures rejected.Some? ==> rejected.value == ErrorMap(Violations(dto, isEmail, isCpf))
      ensures rejected.Some? ==>
                forall f :: f in rejected.value ==> FieldError(f, rejected.value[f]) in FieldViolations(dto, f, isEmail, isCpf)
    {
      var violations := Violations(dto, isEmail, isCpf);
      ValidIffNoViolations(dto, isEmail, isCpf);
      if violations == [] {
        return None;
      }
      var errors := HandleValidationExceptionBadRequest(violations);
      ErrorMapValuesListed(violations);
      rejected := Some(errors);
    }

    /**
     * POST `/cadastrar`. A body breaking a constraint gets the 400 map with
     * one entry per failing property. Otherwise the first broken uniqueness
     * rule gets its 409. Only when all three pass is exactly one row added:
     * the body's properties, the clock's time and an id no row had. The
     * table stays free of duplicates whenever it was before.
     */
    method SaveParkingSpot(dto: ParkingSpotDto, now: Timestamp) returns (resp: Response)
      requires service.Valid()
      modifies service
      ensures service.Valid()
      ensures resp.BadRequest? || resp.Conflict? || resp.Created?
      ensures resp.BadRequest? <==> !IsValid(dto, isEmail, isCpf)
      ensures resp.BadRequest? ==> forall f :: f in resp.errors <==> !FieldOk(dto, f, isEmail, isCpf)
      ensures resp.BadRequest? ==> resp.errors == ErrorMap(Violations(dto, isEmail, isCpf))
      ensures resp.BadRequest? ==>
                forall f :: f in resp.errors ==> FieldError(f, resp.errors[f]) in FieldViolations(dto, f, isEmail, isCpf)
      ensures IsValid(dto, isEmail, isCpf) ==>
                forall c :: resp == Conflict(c) <==> CheckConflicts(old(service.table), dto) == Some(c)
      ensures !resp.Created? ==> service.table == old(service.table)
      ensures resp.Created? ==>
                && resp.spot.id.Some? && resp.spot.id.value !in old(service.table)
                && resp.spot == NewSpot(dto, now).(id := resp.spot.id)
                && service.table == old(service.table)[resp.spot.id.value := resp.spot]
                && service.FindById(resp.spot.id.value) == Some(resp.spot)
      ensures NoDuplicates(old(service.table)) ==> NoDuplicates(service.table)
    {
      var rejected := ValidateRequestBody(dto);
      if rejected.Some? {
        resp := BadRequest(rejected.value);
        return;
      }
      if service.ExistsByLicensePlateCar(dto.licensePlateCar) {
        resp := Conflict(DuplicateLicensePlate);
      } else if service.ExistsByParkingSpotNumber(dto.parkingSpotNumber) {
        resp := Conflict(DuplicateParkingSpotNumber);
      } else if service.ExistsByApartmentAndBlock(dto.apartment, dto.block) {
        resp := Conflict(DuplicateApartmentBlock);
      } else {
        ghost var before := service.table;
        var spot := CopyProperties(dto);
        spot := spot.(registrationDate := Some(now));
        var saved := service.Save(spot);
        if NoDuplicates(before) {
          CreatePreservesNoDuplicates(before, dto, now, saved.id.value);
        }
        resp := Created(saved);
      }
    }

    /** GET `/listar`: every stored row once; nothing changes. */
    method GetAllParkingSpots() returns (resp: Response)
      requires service.Valid()
      ensures resp.Listed? && |resp.spots| == |service.table|
      ensures forall k :: k in service.table ==> service.table[k] in resp.spots
    {
      resp := Listed(service.FindAll());
    }

    /** GET `/listar/{id}`: the row under `id`, or 404; nothing changes. */
    method GetOneParkingSpot(id: int) returns (resp: Response)
      requires service.Valid()
      ensures id !in service.table ==> resp == NotFound
      ensures id in service.table ==> resp == Found(service.table[id])
    {
      var found := service.FindById(id);
      if found.None? {
        resp := NotFound;
        return;
      }
      resp := Found(found.value);
    }

    /**
     * DELETE `/excluir/{id}`: 404 and no change for an unknown id; otherwise
     * that row is removed and every other row stays as it was.
     */
    method DeleteParkingSpot(id: int) returns (resp: Response)
      requires service.Valid()
      modifies service
      ensures service.Valid()
      ensures id !in old(service.table) ==> resp == NotFound && service.table == old(service.table)
      ensures id in old(service.table) ==>
                && resp == Deleted
                && service.table.Keys == old(service.table).Keys - {id}
                && (forall k :: k in service.table ==> service.table[k] == old(service.table)[k])
                && |service.table| == |old(service.table)| - 1
    {
      var found := service.FindById(id);
      if found.None? {
        resp := NotFound;
        return;
      }
      service.Delete(found.value);
      resp := Deleted;
    }

    /**
     * PUT `/atualizar/{id}`: a body breaking a constraint gets the 400 map;
     * an unknown id gets 404; both leave the table as it was. Otherwise the
     * row under `id` is replaced by the body's properties, keeping its id and
     * registration time, with no uniqueness check; the count is unchanged.
     */
    method UpdateParkingSpot(id: int, dto: ParkingSpotDto) returns (resp: Response)
      requires service.Valid()
      modifies service
      ensures service.Valid()
      ensures resp.BadRequest? <==> !IsValid(dto, isEmail, isCpf)
      ensures resp.BadRequest? ==> forall f :: f in resp.errors <==> !FieldOk(dto, f, isEmail, isCpf)
      ensures resp.BadRequest? ==> resp.errors == ErrorMap(Violations(dto, isEmail, isCpf))
      ensures resp.BadRequest? ==>
                forall f :: f in resp.errors ==> FieldError(f, resp.errors[f]) in FieldViolations(dto, f, isEmail, isCpf)
      ensures IsValid(dto, isEmail, isCpf) && id !in old(service.table) ==> resp == NotFound
      ensures !resp.Updated? ==> service.table == old(service.table)
      ensures IsValid(dto, isEmail, isCpf) && id in old(service.table) ==>
                && resp == Updated(UpdatedSpot(old(service.table)[id], dto))
                && resp.spot.id == Some(id)
                && resp.spot.registrationDate == old(service.table)[id].registrationDate
                && service.table == old(service.table)[id := resp.spot]
                && |service.table| == |old(service.table)|
    {
      var rejected := ValidateRequestBody(dto);
      if rejected.Some? {
        resp := BadRequest(rejected.value);
        return;
      }
      var found := service.FindById(id);
      if found.None? {
        resp := NotFound;
        return;
      }
      var spot := CopyProperties(dto);
      spot := spot.(id := found.value.id);
      spot := spot.(registrationDate := found.value.registrationDate);
      var saved := service.Save(spot);
      resp := Updated(saved);
    }
  }
}
