/** Properties of sequences of calls against one store, made one after
    another: the ids the handler returns are pairwise distinct and never
    found in the store before, and a store without duplicate plates never
    gets one. The scenarios of the endpoint's test, and the interleaving the
    non-atomic check-then-save allows, are stated as lemmas at the end. */
module Calls {
  import opened Entity
  import opened Store
  import opened Endpoint

  /** A call made against the store: `adicionar`, or the `deleteAll` the
      test runs before every case. */
  datatype Call = Add(request: CarrosRequest) | Reset

  /** Number of `Add` calls in a sequence. */
  function Adds(calls: seq<Call>): nat
  {
    if calls == [] then 0 else (if calls[0].Add? then 1 else 0) + Adds(calls[1..])
  }

  /** Runs the calls in order: the final state and one outcome per `Add`. */
  function Run(db: Db, calls: seq<Call>): (r: (Db, seq<Outcome>))
    ensures |r.1| == Adds(calls)
    ensures Inv(db) ==> Inv(r.0) && db.nextId <= r.0.nextId
    decreases |calls|
  {
    if calls == [] then (db, [])
    else
      match calls[0]
      case Reset => Run(Cleared(db), calls[1..])
      case Add(request) =>
        var (db1, o) := Register(db, request);
        var (db2, outs) := Run(db1, calls[1..]);
        (db2, [o] + outs)
  }

  /** The ids of the successful outcomes, in order. */
  function OkIds(outs: seq<Outcome>): seq<int>
  {
    if outs == [] then []
    else (if outs[0].Ok? then [outs[0].id] else []) + OkIds(outs[1..])
  }

  /** Strictly increasing, hence without repetition. */
  predicate Increasing(ids: seq<int>) {
    forall i, j :: 0 <= i < j < |ids| ==> ids[i] < ids[j]
  }

  /** Every id lies in the half-open range [lo, hi). */
  predicate Within(ids: seq<int>, lo: int, hi: int) {
    forall i :: 0 <= i < |ids| ==> lo <= ids[i] < hi
  }

  /** The ids returned along a run are strictly increasing and lie between the
      counter before the run and the counter after it. */
  lemma {:induction false} RunIdsIncrease(db: Db, calls: seq<Call>)
    requires Inv(db)
    ensures Increasing(OkIds(Run(db, calls).1))
    ensures Within(OkIds(Run(db, calls).1), db.nextId, Run(db, calls).0.nextId)
    decreases |calls|
  {
    if calls != [] {
      match calls[0]
      case Reset =>
        RunIdsIncrease(Cleared(db), calls[1..]);
      case Add(request) =>
        var step := Register(db, request);
        var o := step.1;
        var tail := Run(step.0, calls[1..]);
        RunIdsIncrease(step.0, calls[1..]);
        assert Run(db, calls) == (tail.0, [o] + tail.1);
        assert ([o] + tail.1)[1..] == tail.1;
        var rest := OkIds(tail.1);
        var ids := OkIds([o] + tail.1);
        if o.Ok? {
          assert o.id == db.nextId && step.0.nextId == db.nextId + 1;
          assert ids == [o.id] + rest;
          forall i, j | 0 <= i < j < |ids| ensures ids[i] < ids[j] {
            assert ids[j] == rest[j - 1];
            if i > 0 { assert ids[i] == rest[i - 1]; }
          }
          forall i | 0 <= i < |ids| ensures db.nextId <= ids[i] < tail.0.nextId {
            if i > 0 { assert ids[i] == rest[i - 1]; }
          }
        } else {
          assert ids == rest;
        }
    }
  }

  /** Successive successful calls return pairwise distinct ids, none of which
      belonged to a row of the store the run started from, even when the
      store is emptied in between. */
  lemma RunIdsFresh(db: Db, calls: seq<Call>)
    requires Inv(db)
    ensures var ids := OkIds(Run(db, calls).1);
            && (forall i, j :: 0 <= i < |ids| && 0 <= j < |ids| && i != j ==> ids[i] != ids[j])
            && (forall i :: 0 <= i < |ids| ==> !HasId(db, ids[i]))
  {
    RunIdsIncrease(db, calls);
    var ids := OkIds(Run(db, calls).1);
    forall i, j | 0 <= i < |ids| && 0 <= j < |ids| && i != j ensures ids[i] != ids[j] {
      if i < j { assert ids[i] < ids[j]; } else { assert ids[j] < ids[i]; }
    }
  }

  /** Made one after another, calls never leave two rows with one plate
      behind, provided the store started without such a pair. */
  lemma {:induction false} RunKeepsPlacasUnique(db: Db, calls: seq<Call>)
    requires UniquePlacas(db.rows)
    ensures UniquePlacas(Run(db, calls).0.rows)
    decreases |calls|
  {
    if calls != [] {
      match calls[0]
      case Reset =>
        RunKeepsPlacasUnique(Cleared(db), calls[1..]);
      case Add(request) =>
        RegisterKeepsPlacasUnique(db, request);
        RunKeepsPlacasUnique(Register(db, request).0, calls[1..]);
    }
  }

  /** Happy path of the test: on an emptied store ("Gol", "MGG-4080") is
      stored under the counter's value, which `existsById` then finds. */
  lemma AddsNewCarro(db: Db)
    requires Inv(db) && db.rows == [] && db.nextId <= MaxLong
    ensures var r := Register(db, CarrosRequest("Gol", "MGG-4080"));
            && r.1 == Ok(db.nextId)
            && r.0.rows == [Row(db.nextId, "Gol", "MGG-4080")]
            && HasId(r.0, db.nextId)
  {
  }

  /** Duplicate plate of the test: after a direct `save` of ("Gol",
      "MGG-4080"), registering ("Palio", "MGG-4080") fails with
      `ALREADY_EXISTS` and the row count stays at one. */
  lemma RejectsDuplicatePlaca(db: Db)
    requires Inv(db) && db.rows == [] && db.nextId <= MaxLong
    ensures var db1 := Persist(db, "Gol", "MGG-4080").0;
            var r := Register(db1, CarrosRequest("Palio", "MGG-4080"));
            && r == (db1, Error(AlreadyExists, DuplicatePlaca))
            && |r.0.rows| == 1
  {
  }

  /** Invalid input of the test: ("", "") fails with `INVALID_ARGUMENT` on any
      store, since no stored row can have an empty plate. */
  lemma RejectsEmptyFields(db: Db)
    requires Inv(db)
    ensures Register(db, CarrosRequest("", "")) == (db, Error(InvalidArgument, InvalidInput))
  {
  }

  /** The check-then-save sequence is not atomic: two calls for one plate that
      both check before either saves leave two rows with that plate. */
  lemma InterleavedCallsDuplicate(db: Db, placa: string)
    requires db.rows == [] && db.nextId < MaxLong && NotEmpty(placa)
    ensures var db1 := Persist(db, "Gol", placa).0;
            var db2 := Persist(db1, "Palio", placa).0;
            && !HasPlaca(db, placa)
            && !UniquePlacas(db2.rows)
  {
    var db1 := Persist(db, "Gol", placa).0;
    var db2 := Persist(db1, "Palio", placa).0;
    assert db2.rows[0].placa == db2.rows[1].placa;
  }
}
