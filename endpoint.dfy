/** The gRPC handler `CarrosEndpoint.adicionar`: check the plate, build the
    entity, save it, and map each outcome to the messages sent to the caller.
    The observer callbacks become a returned `Outcome`; `Signals` says which
    callbacks each outcome stands for. */
module Endpoint {
  import opened Entity
  import opened Store

  /** Description sent with `ALREADY_EXISTS`. */
  const DuplicatePlaca: string := "carro com placa existente"

  /** Description sent with `INVALID_ARGUMENT`. */
  const InvalidInput: string := "dados de entrada inválidos"

  /** The two fields of `CarrosRequest` (a null request is not modelled). */
  datatype CarrosRequest = CarrosRequest(modelo: string, placa: string)

  /** The gRPC status codes the handler uses. */
  datatype Code = AlreadyExists | InvalidArgument

  /** How one call ends: a response carrying the new id, an error status with
      its description, or an exception that escapes the handler untranslated. */
  datatype Outcome = Ok(id: int) | Error(code: Code, description: string) | Propagated

  /** The response-observer callbacks. */
  datatype Signal = OnNext(id: int) | OnCompleted | OnError(code: Code, description: string)

  predicate Terminal(s: Signal) {
    s.OnCompleted? || s.OnError?
  }

  /** The callbacks the handler makes for an outcome: a single `onError`, or
      one `onNext` followed by `onCompleted`, or none when the exception
      propagates. An error and a response are never both sent. */
  function Signals(o: Outcome): (sig: seq<Signal>)
    ensures o.Propagated? <==> sig == []
    ensures sig != [] ==> Terminal(sig[|sig| - 1])
    ensures forall i :: 0 <= i < |sig| && Terminal(sig[i]) ==> i == |sig| - 1
    ensures forall i :: 0 <= i < |sig| - 1 ==> o.Ok? && sig[i] == OnNext(o.id)
    ensures o.Ok? ==> sig == [OnNext(o.id), OnCompleted]
    ensures forall i :: 0 <= i < |sig| && sig[i].OnError? ==> o.Error?
    ensures o.Error? ==> sig == [OnError(o.code, o.description)]
  {
    match o
    case Ok(id) => [OnNext(id), OnCompleted]
    case Error(code, description) => [OnError(code, description)]
    case Propagated => []
  }

  /** `adicionar` on the store state `db`: the new state and the outcome.
      The plate check comes first and wins over validation; a
      `ConstraintViolationException` from `save` becomes `INVALID_ARGUMENT`;
      any other store exception is not translated. */
  function Register(db: Db, request: CarrosRequest): (r: (Db, Outcome))
    ensures HasPlaca(db, request.placa) ==> r == (db, Error(AlreadyExists, DuplicatePlaca))
    ensures (!HasPlaca(db, request.placa) && !IsValid(request.modelo, request.placa))
              ==> r == (db, Error(InvalidArgument, InvalidInput))
    ensures (!HasPlaca(db, request.placa) && IsValid(request.modelo, request.placa) && db.nextId > MaxLong)
              ==> r == (db, Propagated)
    ensures r.1.Ok? <==>
              !HasPlaca(db, request.placa) && IsValid(request.modelo, request.placa) && db.nextId <= MaxLong
    ensures !r.1.Ok? ==> r.0 == db
    ensures r.1.Ok? ==> r.0.rows == db.rows + [Row(r.1.id, request.modelo, request.placa)]
    ensures Inv(db) && r.1.Ok? ==> !HasId(db, r.1.id) && HasId(r.0, r.1.id)
    ensures Inv(db) ==> Inv(r.0) && db.nextId <= r.0.nextId
  {
    if HasPlaca(db, request.placa) then
      (db, Error(AlreadyExists, DuplicatePlaca))
    else
      var (db', saved) := Persist(db, request.modelo, request.placa);
      match saved
      case ConstraintViolation(_) => (db, Error(InvalidArgument, InvalidInput))
      case StoreFault => (db, Propagated)
      case Saved(id) => (db', Ok(id))
  }

  /** A call that stores a row stores one whose plate was new, so it keeps
      plates unique; a call that fails writes nothing. */
  lemma RegisterKeepsPlacasUnique(db: Db, request: CarrosRequest)
    requires UniquePlacas(db.rows)
    ensures UniquePlacas(Register(db, request).0.rows)
  {
  }

  /** The service object; its only state is the repository it was given. */
  class CarrosEndpoint {
    const repository: CarroRepository

    constructor (repository: CarroRepository)
      ensures this.repository == repository
    {
      this.repository := repository;
    }

    /** `adicionar(request, responseObserver)`. The entity built here is the
        one `save` writes the id into, so reading it back (`carro.id!!`)
        cannot fail after a normal return of `save`. */
    method Adicionar(request: CarrosRequest) returns (outcome: Outcome)
      requires repository.Valid()
      modifies repository
      ensures repository.Valid()
      ensures (repository.Snapshot(), outcome) == Register(old(repository.Snapshot()), request)
      ensures outcome.Ok? ==> repository.ExistsById(outcome.id)
      ensures !outcome.Ok? ==> repository.Snapshot() == old(repository.Snapshot())
    {
      if repository.ExistsByPlaca(request.placa) {
        return Error(AlreadyExists, DuplicatePlaca);
      }
      var carro := new Carro(request.modelo, request.placa);
      var saved := repository.Save(carro);
      match saved {
        case ConstraintViolation(_) =>
          return Error(InvalidArgument, InvalidInput);
        case StoreFault =>
          return Propagated;
        case Saved(_) =>
      }
      outcome := Ok(carro.id.value);
    }
  }
}
