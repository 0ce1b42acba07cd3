/**
 * `ParkingSpotService`: the one object that owns the repository's table.
 * `save` and `delete` change the table in place; the queries read it.
 * The id generator of the store is the counter `nextId`.
 */
module Service {
  import opened Wrappers
  import opened Dtos
  import opened Models
  import Repository

  class ParkingSpotService {
    var table: Repository.Table
    var nextId: int

    /** Rows carry their key, and the generator is past every key in use. */
    ghost predicate Valid()
      reads this
    {
      && Repository.WellKeyed(table)
      && forall k :: k in table ==> k < nextId
    }

    /**
     * The service over the injected repository's current rows `t`, whose
     * id generator will next hand out `next`.
     */
    constructor (t: Repository.Table, next: int)
      requires Repository.WellKeyed(t) && forall k :: k in t ==> k < next
      ensures Valid() && table == t && nextId == next
    {
      table := t;
      nextId := next;
    }

    /**
     * `save(m)`: an entity whose id is stored replaces that row and nothing
     * else changes; any other entity gets an id no row uses, is stored under
     * it, and the table grows by one. The result is the stored row.
     */
    method Save(m: ParkingSpotModel) returns (saved: ParkingSpotModel)
      requires Valid()
      modifies this
      ensures Valid()
      ensures table == Repository.SaveRow(old(table), m, old(nextId))
      ensures Repository.IsStored(old(table), m) ==>
                saved == m && table == old(table)[m.id.value := m] && |table| == |old(table)|
      ensures !Repository.IsStored(old(table), m) ==>
                && saved.id.Some? && saved.id.value !in old(table)
                && saved == m.(id := saved.id)
                && table == old(table)[saved.id.value := saved]
                && |table| == |old(table)| + 1
    {
      if m.id.Some? && m.id.value in table {
        saved := m;
        table := table[m.id.value := m];
      } else {
        saved := m.(id := Some(nextId));
        table := table[nextId := saved];
        nextId := nextId + 1;
      }
    }

    /** `existsByLicensePlateCar`: true iff a listed spot has plate `p`. */
    function ExistsByLicensePlateCar(p: JString): (r: bool)
      reads this
      ensures r <==> exists m :: m in Repository.FindAll(table) && m.licensePlateCar == p
    {
      Repository.PlateQueryScansFindAll(table, p);
      Repository.ExistsByLicensePlateCar(table, p)
    }

    /** `existsByParkingSpotNumber`: true iff a listed spot has number `n`. */
    function ExistsByParkingSpotNumber(n: JString): (r: bool)
      reads this
      ensures r <==> exists m :: m in Repository.FindAll(table) && m.parkingSpotNumber == n
    {
      Repository.SpotQueryScansFindAll(table, n);
      Repository.ExistsByParkingSpotNumber(table, n)
    }

    /**
     * `existsByApartmentAndBlock`: true iff one listed spot has both
     * apartment `a` and block `b`.
     */
    function ExistsByApartmentAndBlock(a: JString, b: JString): (r: bool)
      reads this
      ensures r <==> exists m :: m in Repository.FindAll(table) && m.apartment == a && m.block == b
    {
      Repository.ApartmentAndBlockQueryScansFindAll(table, a, b);
      Repository.ExistsByApartmentAndBlock(table, a, b)
    }

    /** `findAll`: every stored row once. */
    function FindAll(): (r: seq<ParkingSpotModel>)
      reads this
      ensures |r| == |table|
      ensures forall k :: k in table ==> table[k] in r
    {
      Repository.FindAll(table)
    }

    /** `findById`: the row under `id`, absent exactly when there is none. */
    function FindById(id: int): (r: Option<ParkingSpotModel>)
      reads this
      ensures r.None? <==> id !in table
      ensures r.Some? ==> r.value == table[id]
    {
      Repository.FindById(table, id)
    }

    /**
     * `delete(m)`: the row with `m`'s id is gone, every other row and the
     * generator are unchanged.
     */
    method Delete(m: ParkingSpotModel)
      requires Valid()
      modifies this
      ensures Valid()
      ensures table == Repository.DeleteRow(old(table), m)
      ensures nextId == old(nextId)
    {
      if m.id.Some? {
        table := table - {m.id.value};
      }
    }
  }
}
