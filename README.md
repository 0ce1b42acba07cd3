# Parking spot registry — a Dafny model

This project models the core of a small Spring service that registers parking
spots of a residential building. Each spot record names a spot number, one
vehicle (plate, brand, model, colour), the person responsible, an apartment
and block, an e-mail, a CPF (Brazilian taxpayer number), a store-assigned id
and a registration time.

The model covers:

- the request body `ParkingSpotDTO` and its bean-validation constraints
  (`dtos.dfy`, module `Dtos`);
- the persisted entity, defined as the ten body properties plus `id` and
  `registrationDate`, and the property copy (`models.dfy`, module `Models`);
- the repository as a table keyed by integer id, with its three derived
  existence queries, `findAll`, `findById`, `save` and `delete`
  (`repository.dfy`, module `Repository`);
- the service as a class that owns the table and changes it in place
  (`service.dfy`, module `Service`);
- the controller (`controller.dfy`, module `Controller`). It covers:
  - the create endpoint's ordered chain of uniqueness checks (plate, then
    spot number, then apartment and block);
  - the id- and date-preserving update, which skips those checks;
  - get-one, list and delete;
  - the handler that turns failed validation into the 400 field-to-message
    map.

Each request is one sequential step on the table. Responses are a datatype
(`Created`, `Conflict(reason)`, `BadRequest(errors)`, `NotFound`, `Found`,
`Listed`, `Updated`, `Deleted`). The Portuguese response and constraint texts
are tags.

Main invariant: no two rows share a plate, a spot number, or an
(apartment, block) pair (`Controller.NoDuplicates`). Every create keeps it,
whether the create is accepted or rejected. Update does not keep it, and
`Controller.UpdateSkipsUniquenessCheck` exhibits a case.

Three behaviours of the store and the framework that the model keeps:

- Repository `delete` on a row that is already gone is a silent no-op, not
  a "not found" error. The 404 belongs to the controller, which looks the
  row up first.
- `save` of an entity whose id is stored is a full replace, with no
  "not found" failure at the store level.
- The `@Valid` check runs before the controller body. So update with an
  invalid body answers 400 even when the id is unknown.

## Model

| member | source | states |
|---|---|---|
| `Dtos.ParkingSpotDto.With` | src/main/java/com/api/parking_control/dtos/ParkingSpotDTO.java:9-10 | setting one property of the body leaves the other nine as they were |
| `Dtos.FieldViolations` | src/main/java/com/api/parking_control/dtos/ParkingSpotDTO.java:12-34 | the errors reported for one property all name it, and there are none exactly when every constraint declared on it holds; each broken constraint reports its own message (`@NotBlank` its required-text, `@Size` the plate-too-long text, `@Email` and `@CPF` their invalid-value texts) exactly once, and no other message appears |
| `Dtos.Violations` | src/main/java/com/api/parking_control/dtos/ParkingSpotDTO.java:12-34 | the binding result lists an error for exactly the properties that break a constraint, and for no other; the listed errors are exactly those the properties' constraints report, so a property breaking two constraints (a blank over-long plate) gets both |
| `Dtos.IsValid` | src/main/java/com/api/parking_control/dtos/ParkingSpotDTO.java:12-34 | definition: all ten properties `@NotBlank`, the plate at most 7 chars, the e-mail `@Email`, the CPF `@CPF` |
| `Dtos.ValidIffNoViolations` | src/main/java/com/api/parking_control/dtos/ParkingSpotDTO.java:12-34 | the body is valid (all ten `@NotBlank`, plate `@Size(max = 7)`, `@Email`, `@CPF`) iff each property meets its own constraints, iff the validator reports no error |
| `Dtos.PlateLengthRule` | src/main/java/com/api/parking_control/dtos/ParkingSpotDTO.java:14-16 | a plate longer than 7 chars makes the body invalid; a non-blank plate of 1 to 7 chars meets both plate constraints |
| `Dtos.OnlyPlateIsBounded` | src/main/java/com/api/parking_control/dtos/ParkingSpotDTO.java:12-34 | in a valid body, any property but the plate may be replaced by a non-blank string of any length (meeting `@Email`/`@CPF` where declared) and the body stays valid |
| `Models.CopyProperties` | src/main/java/com/api/parking_control/controllers/ParkingSpotController.java:71 | the copied entity has every body property unchanged, and its `id` and `registrationDate` stay null because the body has neither |
| `Repository.SortedKeys` | src/main/java/com/api/parking_control/repositories/ParkingSpotRepository.java:7 | the ids of the table in strictly ascending order (the order this model picks for `findAll`), as many as there are rows, all of them stored |
| `Repository.SortedKeysComplete` | src/main/java/com/api/parking_control/repositories/ParkingSpotRepository.java:7 | every stored id appears in that order |
| `Repository.FindAll` | src/main/java/com/api/parking_control/services/ParkingSpotService.java:39-41 | the list has one entry per row, holds only stored rows and every stored row, and (rows carrying their key) in strictly increasing id order, so each row exactly once; the order is the model's choice |
| `Repository.FindById` | src/main/java/com/api/parking_control/services/ParkingSpotService.java:43-45 | a present result is the row stored under the id; the result is absent exactly when no row listed by `findAll` has that id |
| `Repository.ExistsByLicensePlateCar` | src/main/java/com/api/parking_control/repositories/ParkingSpotRepository.java:9 | definition: some stored row has the plate |
| `Repository.ExistsByParkingSpotNumber` | src/main/java/com/api/parking_control/repositories/ParkingSpotRepository.java:10 | definition: some stored row has the spot number |
| `Repository.ExistsByApartmentAndBlock` | src/main/java/com/api/parking_control/repositories/ParkingSpotRepository.java:11 | definition: one and the same stored row has both the apartment and the block |
| `Repository.PlateQueryScansFindAll` | src/main/java/com/api/parking_control/repositories/ParkingSpotRepository.java:9 | `existsByLicensePlateCar` is true iff some row that `findAll` lists has that plate |
| `Repository.SpotQueryScansFindAll` | src/main/java/com/api/parking_control/repositories/ParkingSpotRepository.java:10 | `existsByParkingSpotNumber` is true iff some row that `findAll` lists has that spot number |
| `Repository.ApartmentAndBlockQueryScansFindAll` | src/main/java/com/api/parking_control/repositories/ParkingSpotRepository.java:11 | `existsByApartmentAndBlock` is true iff one and the same listed row has both that apartment and that block |
| `Repository.ApartmentAndBlockMatchOneRow` | src/main/java/com/api/parking_control/repositories/ParkingSpotRepository.java:11 | there is a table where the apartment and the block occur only in different rows, and the query answers false on it |
| `Repository.SaveRow` | src/main/java/com/api/parking_control/services/ParkingSpotService.java:22-25 | a stored entity replaces its row with the count unchanged; any other one is inserted under the new id with the count up by one; every other row is unchanged; rows keep carrying their key |
| `Repository.DeleteRow` | src/main/java/com/api/parking_control/services/ParkingSpotService.java:47-50 | the row with the entity's id is gone, every other row is unchanged, and the count drops by one exactly when that row was stored |
| `Repository.Step` | src/main/java/com/api/parking_control/services/ParkingSpotService.java:22-50 | after one `save` (lines 22-25) or `delete` (lines 47-50), every stored id is still below the next id the generator will hand out, so generated ids stay fresh |
| `Repository.PlateStaysRegistered` | src/main/java/com/api/parking_control/repositories/ParkingSpotRepository.java:9 | once a row has plate `p`, `existsByLicensePlateCar(p)` stays true through any sequence of saves and deletes that neither deletes that row nor saves it with another plate |
| `Service.ParkingSpotService.constructor` | src/main/java/com/api/parking_control/services/ParkingSpotService.java:18-20 | the service starts on the injected repository's rows, with an id generator past every stored id, and its invariant holds |
| `Service.ParkingSpotService.Save` | src/main/java/com/api/parking_control/services/ParkingSpotService.java:22-25 | in-place `SaveRow`: replace with count unchanged, or insert under an id no row had with count up by one; returns the stored row; the invariant is kept |
| `Service.ParkingSpotService.ExistsByLicensePlateCar` | src/main/java/com/api/parking_control/services/ParkingSpotService.java:27-29 | true iff a row the repository lists has that plate |
| `Service.ParkingSpotService.ExistsByParkingSpotNumber` | src/main/java/com/api/parking_control/services/ParkingSpotService.java:31-33 | true iff a row the repository lists has that spot number |
| `Service.ParkingSpotService.ExistsByApartmentAndBlock` | src/main/java/com/api/parking_control/services/ParkingSpotService.java:35-37 | true iff one row the repository lists has both that apartment and that block |
| `Service.ParkingSpotService.FindAll` | src/main/java/com/api/parking_control/services/ParkingSpotService.java:39-41 | one entry per row, every stored row included; a function, so nothing changes |
| `Service.ParkingSpotService.FindById` | src/main/java/com/api/parking_control/services/ParkingSpotService.java:43-45 | absent exactly for an id with no row, otherwise that row |
| `Service.ParkingSpotService.Delete` | src/main/java/com/api/parking_control/services/ParkingSpotService.java:47-50 | in-place `DeleteRow`; the id generator is untouched and the invariant is kept |
| `Controller.CheckConflicts` | src/main/java/com/api/parking_control/controllers/ParkingSpotController.java:57-68 | the if/else-if chain over the plate, spot-number and apartment-and-block queries; a reported reason is a rule the body breaks |
| `Controller.ReportsFirstViolatedRule` | src/main/java/com/api/parking_control/controllers/ParkingSpotController.java:57-68 | the chain reports a rule exactly when it is broken and every earlier rule in the order plate, spot, apartment/block holds (one reason, the first); it approves exactly when no rule is broken |
| `Controller.ApprovedIffNoClash` | src/main/java/com/api/parking_control/controllers/ParkingSpotController.java:57-69 | a create is approved exactly when no stored row shares the plate, the spot number or the apartment and block |
| `Controller.NewSpot` | src/main/java/com/api/parking_control/controllers/ParkingSpotController.java:69-72 | the row a create stores has every body property, no id yet, and the clock's time as registration date |
| `Controller.UpdatedSpot` | src/main/java/com/api/parking_control/controllers/ParkingSpotController.java:122-126 | the row an update stores has every body property and the `id` and `registrationDate` of the row it replaces |
| `Controller.CreatePreservesNoDuplicates` | src/main/java/com/api/parking_control/controllers/ParkingSpotController.java:57-73 | an approved create, under any fresh id, keeps the table free of duplicate plates, spot numbers and apartment/block pairs |
| `Controller.UpdateSkipsUniquenessCheck` | src/main/java/com/api/parking_control/controllers/ParkingSpotController.java:114-130 | a duplicate-free table can gain a duplicate plate through update, which runs no uniqueness check |
| `Controller.ErrorMap` | src/main/java/com/api/parking_control/controllers/ParkingSpotController.java:141-146 | definition: the map built by putting each error's property and message in list order, a later put overwriting an earlier one |
| `Controller.ErrorMapValuesListed` | src/main/java/com/api/parking_control/controllers/ParkingSpotController.java:141-146 | every entry of the 400 map is the property and message of one of the listed errors |
| `Controller.ErrorMapKeys` | src/main/java/com/api/parking_control/controllers/ParkingSpotController.java:140-147 | the 400 map has an entry exactly for the properties that have an error |
| `Controller.ErrorMapLastWins` | src/main/java/com/api/parking_control/controllers/ParkingSpotController.java:141-146 | a property with several errors maps to the message of the one listed last |
| `Controller.ParkingSpotController.constructor` | src/main/java/com/api/parking_control/controllers/ParkingSpotController.java:41-43 | the controller holds the service it is given |
| `Controller.ParkingSpotController.ValidateRequestBody` | src/main/java/com/api/parking_control/controllers/ParkingSpotController.java:53 | `@Valid` rejects the body exactly when it breaks a constraint; the rejection is the handler's map of the binding errors, keyed by exactly the failing properties, each mapped to a message one of that property's broken constraints reports |
| `Controller.ParkingSpotController.HandleValidationExceptionBadRequest` | src/main/java/com/api/parking_control/controllers/ParkingSpotController.java:138-148 | the loop of puts builds `ErrorMap`: one entry per property with an error, the last message winning |
| `Controller.ParkingSpotController.SaveParkingSpot` | src/main/java/com/api/parking_control/controllers/ParkingSpotController.java:52-75 | invalid body: 400 with one entry per failing property, each holding a message of one of its broken constraints. Otherwise the chain's first conflict: 409, table unchanged. Otherwise exactly one row added, with the body's properties, the clock's time and an id no row had, and `findById` of that id returns it. Duplicate-freedom is kept in all cases |
| `Controller.ParkingSpotController.GetAllParkingSpots` | src/main/java/com/api/parking_control/controllers/ParkingSpotController.java:83-86 | 200 with every stored row, one entry per row; nothing changes |
| `Controller.ParkingSpotController.GetOneParkingSpot` | src/main/java/com/api/parking_control/controllers/ParkingSpotController.java:94-101 | 404 for an id with no row, otherwise 200 with that row; nothing changes |
| `Controller.ParkingSpotController.DeleteParkingSpot` | src/main/java/com/api/parking_control/controllers/ParkingSpotController.java:103-112 | 404 and no change for an unknown id; otherwise that row is removed, every other row is unchanged and the count drops by one |
| `Controller.ParkingSpotController.UpdateParkingSpot` | src/main/java/com/api/parking_control/controllers/ParkingSpotController.java:114-130 | invalid body: 400 with one entry per failing property, each holding a message of one of its broken constraints; unknown id: 404; both leave the table unchanged. Otherwise the row is replaced by the body's properties with its `id` and `registrationDate` kept, the count unchanged, and no uniqueness check |

## Left out

- HTTP and Spring wiring are not modelled: routing, `@CrossOrigin`, `ResponseEntity`, the status codes and the response texts, which become tags. The create response's `"Cadastrado:" + toString()` is the saved row itself.
- `@Email` and `@CPF` come from Hibernate Validator, which is not part of this model. They are the parameters `isEmail` and `isCpf`. Following the Bean Validation convention, a null value passes them.
- The clock (`LocalDateTime.now(ZoneId.of("UTC"))`) is the parameter `now`, an opaque timestamp.
- JPA internals are not modelled: the id-generation strategy (only "a fresh id no row has", produced by a counter), `@Transactional`, database collation, store-level unique constraints, and store I/O failures. A store failure would be a 5xx, and the core does not handle it.
- Concurrency is not modelled: the check-then-act race between the existence checks and the write is out of scope. Each request is one atomic step.
- Repository.SaveRow: Hibernate's merge of an entity whose id is set but not stored is modelled as an insert under a fresh id. Newer Hibernate versions fail instead. The controller never reaches this case.
- Dtos.Violations: bean validation does not fix the order of its errors. The model lists them in declaration order, with annotation order within a property. The 400 handler is proved for any order.
- Dtos.SizeOk counts chars as Dafny characters, not Java's UTF-16 code units. The two differ only for characters outside the Basic Multilingual Plane.
- Repository.FindAll: the query has no ORDER BY, so the source fixes no order; ascending id order is the model's choice of the unspecified order.
- Ids are unbounded integers. Java's 32-bit `Integer` overflow is not modelled, because ids come from the generator.
- Service.ParkingSpotService.FindAll: the function states count and membership. The primary-key order and the "exactly once" are stated on Repository.FindAll.
