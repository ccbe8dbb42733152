/** The record store behind `CarroRepository`, a Micronaut Data interface whose
    implementation is generated: persisted rows and the identity counter of the
    table. The model gives `existsByPlaca`, `save`, `existsById` and
    `deleteAll` the behaviour the endpoint and its test rely on. */
module Store {
  import opened Entity

  /** A persisted row of the `carro` table. */
  datatype Row = Row(id: int, modelo: string, placa: string)

  /** The whole persisted state: the rows in insertion order and the next
      value the identity column will hand out. */
  datatype Db = Db(rows: seq<Row>, nextId: int)

  /** What `save` does: return normally with the assigned id, throw a
      `ConstraintViolationException` with the violated properties, or throw
      another persistence exception (here: the `Long` identity is exhausted). */
  datatype SaveOutcome = Saved(id: int) | ConstraintViolation(violations: set<Field>) | StoreFault

  /** A fresh table: no rows, the identity column starts at 1. */
  const Empty: Db := Db([], 1)

  /** What the store itself guarantees: ids are positive `Long`s below the
      counter and increase along the rows, and every row passed validation.
      Plate uniqueness is NOT part of it: the table has no unique constraint. */
  predicate Inv(db: Db) {
    && 1 <= db.nextId <= MaxLong + 1
    && (forall i :: 0 <= i < |db.rows| ==>
          1 <= db.rows[i].id < db.nextId && IsValid(db.rows[i].modelo, db.rows[i].placa))
    && (forall i, j :: 0 <= i < j < |db.rows| ==> db.rows[i].id < db.rows[j].id)
  }

  /** No two rows share a plate (exact, case-sensitive comparison). */
  predicate UniquePlacas(rows: seq<Row>) {
    forall i, j :: 0 <= i < j < |rows| ==> rows[i].placa != rows[j].placa
  }

  /** `existsByPlaca`: some row has exactly this plate. */
  predicate HasPlaca(db: Db, placa: string) {
    exists i :: 0 <= i < |db.rows| && db.rows[i].placa == placa
  }

  /** `existsById`: some row has this id. */
  predicate HasId(db: Db, id: int) {
    exists i :: 0 <= i < |db.rows| && db.rows[i].id == id
  }

  /** `save` of a new entity: validate first, then take the next identity
      value and append the row. On any failure nothing is written and no
      identity value is consumed. The plate is not checked against existing
      rows. */
  function Persist(db: Db, modelo: string, placa: string): (r: (Db, SaveOutcome))
    ensures r.1.ConstraintViolation? <==> !IsValid(modelo, placa)
    ensures r.1.ConstraintViolation? ==> r.1.violations == Violations(modelo, placa) != {}
    ensures r.1.StoreFault? <==> IsValid(modelo, placa) && db.nextId > MaxLong
    ensures !r.1.Saved? ==> r.0 == db
    ensures r.1.Saved? ==> r.0.rows == db.rows + [Row(r.1.id, modelo, placa)]
    ensures Inv(db) && r.1.Saved? ==> !HasId(db, r.1.id) && HasId(r.0, r.1.id)
    ensures Inv(db) ==> Inv(r.0) && db.nextId <= r.0.nextId
  {
    var v := Violations(modelo, placa);
    if v != {} then (db, ConstraintViolation(v))
    else if db.nextId > MaxLong then (db, StoreFault)
    else
      var row := Row(db.nextId, modelo, placa);
      assert (db.rows + [row])[|db.rows|] == row;
      (Db(db.rows + [row], db.nextId + 1), Saved(db.nextId))
  }

  /** `deleteAll`: all rows go, the identity counter stays where it was, so an
      id handed out before is never handed out again. */
  function Cleared(db: Db): (r: Db)
    ensures forall p :: !HasPlaca(r, p)
    ensures forall id :: !HasId(r, id)
    ensures r.nextId == db.nextId
    ensures Inv(db) ==> Inv(r)
  {
    Db([], db.nextId)
  }

  /** The repository object. Its state is the table contents and the identity
      counter; each method is tied to the function on `Db` above. */
  class CarroRepository {
    var rows: seq<Row>
    var nextId: int

    function Snapshot(): Db
      reads this
    {
      Db(rows, nextId)
    }

    ghost predicate Valid()
      reads this
    {
      Inv(Snapshot())
    }

    constructor ()
      ensures Valid() && Snapshot() == Empty
    {
      rows := [];
      nextId := 1;
    }

    /** `existsByPlaca(placa)`. */
    function ExistsByPlaca(placa: string): (b: bool)
      reads this
      ensures b <==> exists r :: r in rows && r.placa == placa
    {
      HasPlaca(Snapshot(), placa)
    }

    /** `existsById(id)`. */
    function ExistsById(id: int): (b: bool)
      reads this
      ensures b <==> exists r :: r in rows && r.id == id
    {
      HasId(Snapshot(), id)
    }

    /** `save(carro)`: on success the row is stored and the generated id is
        written into the entity in place; on failure neither changes. */
    method Save(carro: Carro) returns (outcome: SaveOutcome)
      requires Valid()
      requires carro.id == None
      modifies this, carro
      ensures Valid()
      ensures (Snapshot(), outcome) == Persist(old(Snapshot()), carro.modelo, carro.placa)
      ensures carro.id == (if outcome.Saved? then Some(outcome.id) else None)
    {
      var v := Violations(carro.modelo, carro.placa);
      if v != {} {
        return ConstraintViolation(v);
      }
      if nextId > MaxLong {
        return StoreFault;
      }
      var id := nextId;
      rows := rows + [Row(id, carro.modelo, carro.placa)];
      nextId := nextId + 1;
      carro.id := Some(id);
      outcome := Saved(id);
    }

    /** `deleteAll()`. */
    method DeleteAll()
      requires Valid()
      modifies this
      ensures Valid()
      ensures Snapshot() == Cleared(old(Snapshot()))
    {
      rows := [];
    }
  }
}
