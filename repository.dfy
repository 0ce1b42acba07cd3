/**
 * `ParkingSpotRepository`: a JPA table of spots keyed by their `Integer` id.
 * The table is a map from id to row; the derived queries are predicates over
 * its rows, and `save` and `delete` are the two ways it changes.
 */
module Repository {
  import opened Wrappers
  import opened Dtos
  import opened Models

  type Table = map<int, ParkingSpotModel>

  /** Every row carries the key it is stored under. */
  ghost predicate WellKeyed(t: Table) {
    forall k :: k in t ==> t[k].id == Some(k)
  }

  /** The smallest element of a non-empty set of ids. */
  function MinKey(s: set<int>): (m: int)
    requires s != {}
    ensures m in s && forall x :: x in s ==> m <= x
  {
    MinExists(s);
    var m :| m in s && forall x :: x in s ==> m <= x;
    m
  }

  lemma MinExists(s: set<int>)
    requires s != {}
    ensures exists m :: m in s && forall x :: x in s ==> m <= x
  {
    assert (forall y :: y !in s) ==> s == {};
    var y :| y in s;
    MinBelow(s, y);
  }

  lemma {:induction false} MinBelow(s: set<int>, y: int)
    requires y in s
    ensures exists m :: m in s && forall x :: x in s ==> m <= x
    decreases s
  {
    if exists z :: z in s && z < y {
      var z :| z in s && z < y;
      var below := set x | x in s && x < y;
      assert y !in below;
      MinBelow(below, z);
      var m :| m in below && forall x :: x in below ==> m <= x;
      assert forall x :: x in s ==> m <= x by {
        forall x | x in s ensures m <= x {
          if x < y { assert x in below; }
        }
      }
    } else {
      assert forall x :: x in s ==> y <= x;
    }
  }

  /** The ids of `s` in ascending order, each once. */
  function SortedKeys(s: set<int>): (r: seq<int>)
    ensures |r| == |s|
    ensures forall i :: 0 <= i < |r| ==> r[i] in s
    ensures forall i, j :: 0 <= i < j < |r| ==> r[i] < r[j]
    decreases |s|
  {
    if s == {} then []
    else
      var m := MinKey(s);
      var rest := s - {m};
      assert |rest| == |s| - 1;
      [m] + SortedKeys(rest)
  }

  /** Every id of `s` is listed. */
  lemma {:induction false} SortedKeysComplete(s: set<int>)
    ensures forall k :: k in s ==> k in SortedKeys(s)
    decreases |s|
  {
    if s != {} {
      var m := MinKey(s);
      var rest := s - {m};
      assert |rest| == |s| - 1;
      SortedKeysComplete(rest);
      assert SortedKeys(s) == [m] + SortedKeys(rest);
    }
  }

  /** The rows stored under `ks`, in that order. */
  function RowsAt(t: Table, ks: seq<int>): (r: seq<ParkingSpotModel>)
    requires forall i :: 0 <= i < |ks| ==> ks[i] in t
    ensures |r| == |ks|
    ensures forall i :: 0 <= i < |r| ==> r[i] == t[ks[i]]
  {
    if ks == [] then [] else [t[ks[0]]] + RowsAt(t, ks[1..])
  }

  /**
   * `findAll()`: every row once. The query fixes no order; this model lists
   * the rows by ascending id. The list has as many
   * entries as the table, holds only stored rows and holds each of them.
   */
  function FindAll(t: Table): (r: seq<ParkingSpotModel>)
    ensures |r| == |t|
    ensures forall i :: 0 <= i < |r| ==> r[i] in t.Values
    ensures forall k :: k in t ==> t[k] in r
    ensures WellKeyed(t) ==>
              forall i, j :: 0 <= i < j < |r| ==> r[i].id.Some? && r[j].id.Some? && r[i].id.value < r[j].id.value
  {
    var ks := SortedKeys(t.Keys);
    SortedKeysComplete(t.Keys);
    var r := RowsAt(t, ks);
    FindAllLists(t, ks, r);
    r
  }

  lemma FindAllLists(t: Table, ks: seq<int>, r: seq<ParkingSpotModel>)
    requires forall k :: k in t ==> k in ks
    requires forall i :: 0 <= i < |ks| ==> ks[i] in t
    requires forall i, j :: 0 <= i < j < |ks| ==> ks[i] < ks[j]
    requires |r| == |ks| && forall i :: 0 <= i < |r| ==> r[i] == t[ks[i]]
    ensures forall i :: 0 <= i < |r| ==> r[i] in t.Values
    ensures forall k :: k in t ==> t[k] in r
    ensures WellKeyed(t) ==>
              forall i, j :: 0 <= i < j < |r| ==> r[i].id.Some? && r[j].id.Some? && r[i].id.value < r[j].id.value
  {
    forall k | k in t ensures t[k] in r {
      var i :| 0 <= i < |ks| && ks[i] == k;
      assert r[i] == t[k];
    }
  }

  /**
   * `findById(id)`: absent exactly when no row that `findAll` lists has
   * that id; otherwise the row stored under it.
   */
  function FindById(t: Table, id: int): (r: Option<ParkingSpotModel>)
    ensures r.Some? ==> id in t && r.value == t[id]
    ensures WellKeyed(t) ==> (r.None? <==> forall m :: m in FindAll(t) ==> m.id != Some(id))
  {
    if id in t then
      assert t[id] in FindAll(t);
      Some(t[id])
    else
      None
  }

  /** `existsByLicensePlateCar(p)`: some row has plate `p`. */
  function ExistsByLicensePlateCar(t: Table, p: JString): bool {
    exists k :: k in t && t[k].licensePlateCar == p
  }

  /** `existsByParkingSpotNumber(n)`: some row has spot number `n`. */
  function ExistsByParkingSpotNumber(t: Table, n: JString): bool {
    exists k :: k in t && t[k].parkingSpotNumber == n
  }

  /** `existsByApartmentAndBlock(a, b)`: one and the same row has both. */
  function ExistsByApartmentAndBlock(t: Table, a: JString, b: JString): bool {
    exists k :: k in t && t[k].apartment == a && t[k].block == b
  }

  /**
   * The derived queries agree with a scan of the list `findAll` returns:
   * each is true exactly when a listed spot matches.
   */
  lemma PlateQueryScansFindAll(t: Table, p: JString)
    ensures ExistsByLicensePlateCar(t, p) <==> exists m :: m in FindAll(t) && m.licensePlateCar == p
  {
    var r := FindAll(t);
    if ExistsByLicensePlateCar(t, p) {
      var k :| k in t && t[k].licensePlateCar == p;
      assert t[k] in r;
    }
    if m :| m in r && m.licensePlateCar == p {
      assert m in t.Values;
    }
  }

  lemma SpotQueryScansFindAll(t: Table, n: JString)
    ensures ExistsByParkingSpotNumber(t, n) <==> exists m :: m in FindAll(t) && m.parkingSpotNumber == n
  {
    var r := FindAll(t);
    if ExistsByParkingSpotNumber(t, n) {
      var k :| k in t && t[k].parkingSpotNumber == n;
      assert t[k] in r;
    }
    if m :| m in r && m.parkingSpotNumber == n {
      assert m in t.Values;
    }
  }

  /** For apartment and block, one and the same listed spot must match both. */
  lemma ApartmentAndBlockQueryScansFindAll(t: Table, a: JString, b: JString)
    ensures ExistsByApartmentAndBlock(t, a, b) <==> exists m :: m in FindAll(t) && m.apartment == a && m.block == b
  {
    var r := FindAll(t);
    if ExistsByApartmentAndBlock(t, a, b) {
      var k :| k in t && t[k].apartment == a && t[k].block == b;
      assert t[k] in r;
    }
    if m :| m in r && m.apartment == a && m.block == b {
      assert m in t.Values;
    }
  }

  /**
   * The apartment and the block must match within one row: a table where
   * apartment `a` and block `b` occur only in different rows answers false.
   */
  lemma ApartmentAndBlockMatchOneRow()
    ensures exists t: Table, a: JString, b: JString ::
              && (exists k :: k in t && t[k].apartment == a)
              && (exists k :: k in t && t[k].block == b)
              && !ExistsByApartmentAndBlock(t, a, b)
  {
    var a, b, other := Some("101"), Some("A"), Some("B");
    var x := ParkingSpotModel(Some(1), Some("1"), Some("AAA0001"), Some("Fiat"), Some("Uno"), Some("red"),
                              Some("Ana"), a, other, Some("ana@x.br"), Some("52998224725"), None);
    var y := x.(id := Some(2), apartment := Some("202"), block := b);
    var t := map[1 := x, 2 := y];
    assert t[1].apartment == a;
    assert t[2].block == b;
    assert !ExistsByApartmentAndBlock(t, a, b);
  }

  /** The entity has an id the table already holds: `save` merges it. */
  predicate IsStored(t: Table, m: ParkingSpotModel) {
    m.id.Some? && m.id.value in t
  }

  /**
   * `save(m)`: a stored entity replaces its row; any other entity is
   * inserted under the id `newId` the store generates.
   */
  function SaveRow(t: Table, m: ParkingSpotModel, newId: int): (r: Table)
    requires newId !in t
    ensures IsStored(t, m) ==> r.Keys == t.Keys && r[m.id.value] == m
    ensures !IsStored(t, m) ==> r.Keys == t.Keys + {newId} && r[newId] == m.(id := Some(newId))
    ensures |r| == if IsStored(t, m) then |t| else |t| + 1
    ensures forall k :: k in t && k != (if IsStored(t, m) then m.id.value else newId) ==> r[k] == t[k]
    ensures WellKeyed(t) ==> WellKeyed(r)
  {
    if IsStored(t, m) then t[m.id.value := m]
    else
      var r := t[newId := m.(id := Some(newId))];
      assert r.Keys == t.Keys + {newId};
      r
  }

  /**
   * `delete(m)`: the row with `m`'s id is removed and every other row stays;
   * an entity without an id, or whose row is gone, leaves the table as is.
   */
  function DeleteRow(t: Table, m: ParkingSpotModel): (r: Table)
    ensures r.Keys == if m.id.Some? then t.Keys - {m.id.value} else t.Keys
    ensures forall k :: k in r ==> r[k] == t[k]
    ensures |r| == if IsStored(t, m) then |t| - 1 else |t|
  {
    if m.id.Some? then
      var r := t - {m.id.value};
      assert m.id.value in t ==> t.Keys == r.Keys + {m.id.value};
      r
    else
      t
  }

  /** A write to the repository, for reasoning about sequences of them. */
  datatype StoreOp = Save(entity: ParkingSpotModel) | Delete(entity: ParkingSpotModel)

  /** The id generator after `op`: only an insert consumes an id. */
  function NextAfter(t: Table, next: int, op: StoreOp): int {
    if op.Save? && !IsStored(t, op.entity) then next + 1 else next
  }

  /** The table after the single write `op`, inserting under id `next`. */
  function Step(t: Table, next: int, op: StoreOp): (r: Table)
    requires forall k :: k in t ==> k < next
    ensures forall k :: k in r ==> k < NextAfter(t, next, op)
  {
    match op
    case Save(m) => SaveRow(t, m, next)
    case Delete(m) => DeleteRow(t, m)
  }

  /** The table after `ops`, with ids generated from `next` upwards. */
  function Run(t: Table, next: int, ops: seq<StoreOp>): Table
    requires forall k :: k in t ==> k < next
    decreases |ops|
  {
    if ops == [] then t
    else Run(Step(t, next, ops[0]), NextAfter(t, next, ops[0]), ops[1..])
  }

  /** `op` removes row `k` or gives it a plate other than `p`. */
  predicate Displaces(op: StoreOp, k: int, p: JString) {
    match op
    case Save(m) => m.id == Some(k) && m.licensePlateCar != p
    case Delete(m) => m.id == Some(k)
  }

  /**
   * Once row `k` has plate `p`, `existsByLicensePlateCar(p)` stays true
   * through any writes that neither delete row `k` nor save it with
   * another plate.
   */
  lemma {:induction false} PlateStaysRegistered(t: Table, next: int, ops: seq<StoreOp>, k: int, p: JString)
    requires forall j :: j in t ==> j < next
    requires k in t && t[k].licensePlateCar == p
    requires forall i :: 0 <= i < |ops| ==> !Displaces(ops[i], k, p)
    ensures k in Run(t, next, ops) && Run(t, next, ops)[k].licensePlateCar == p
    ensures ExistsByLicensePlateCar(Run(t, next, ops), p)
    decreases |ops|
  {
    if ops != [] {
      assert !Displaces(ops[0], k, p);
      PlateStaysRegistered(Step(t, next, ops[0]), NextAfter(t, next, ops[0]), ops[1..], k, p);
    }
  }
}
