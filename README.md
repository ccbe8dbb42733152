# Vehicle registration (`CarrosEndpoint.adicionar`) in Dafny

This project models the registration service of the `carros` repository. The
entity `Carro` is a vehicle record. Its model (`modelo`) and plate (`placa`)
are immutable and must not be empty. Its `id` is null until the store assigns
one. The gRPC handler `adicionar` works in four steps:

1. It asks the repository whether the plate exists. If so, it fails with
   `ALREADY_EXISTS` / "carro com placa existente" and writes nothing.
2. Otherwise it builds a `Carro` and saves it.
3. A `ConstraintViolationException` from `save` becomes `INVALID_ARGUMENT` /
   "dados de entrada inválidos". Any other exception is not caught.
4. Otherwise it answers with the id that `save` wrote into the entity.

Files and modules:

- `entity.dfy` (`Entity`): the `@NotEmpty` rule (`NotEmpty`, `IsValid`,
  `Violations`) and the class `Carro`. `modelo` and `placa` are `const`s and
  `id` is the only mutable field.
- `store.dfy` (`Store`): the table as a value `Db(rows, nextId)`, with the
  pure operations `Persist` (save of a new entity) and `Cleared` (deleteAll),
  the store invariant `Inv`, and the plate-uniqueness predicate
  `UniquePlacas`. The class `CarroRepository` holds the same state in fields.
  Its `Save` writes the generated id into the `Carro` object in place. Each of
  its methods is proved equal to the pure operation.
- `endpoint.dfy` (`Endpoint`): the outcome of a call (`Ok(id)`,
  `Error(code, description)`, `Propagated`), the observer callbacks each
  outcome stands for (`Signals`), the handler as a function on store states
  (`Register`), and the class `CarrosEndpoint`. Its method `Adicionar` runs the
  handler imperatively against a `CarroRepository` and is proved equal to
  `Register`.
- `calls.dfy` (`Calls`): properties of sequences of calls and `deleteAll`s
  made one after another, the three scenarios of `CarrosEndpointTest`, and the
  interleaving that the non-atomic check-then-save allows.

Modelling decisions:

- `CarroRepository` is a Micronaut Data interface whose implementation is
  generated. The model gives `existsByPlaca`, `save`, `existsById` and
  `deleteAll` the behaviour the endpoint and its test rely on.
- `save` validates before it writes. A rejected entity uses up no identity
  value.
- Identities come from a counter that starts at 1 and is bounded by the
  `Long` maximum (`MaxLong`). `deleteAll` does not reset the counter, because
  `DELETE` does not reset an `IDENTITY` column. So an id is never handed out
  twice, even across resets.
- When the counter is exhausted, `save` fails with `StoreFault`. This stands
  for every persistence exception that is not a `ConstraintViolationException`.
  The handler lets it propagate (`Propagated`), and the store is unchanged.
- `Carro.kt` declares no unique constraint on `placa`, so the store does not
  check plates. Plates stay unique only because the handler checks before it
  saves, and only when calls run one after another
  (`RunKeepsPlacasUnique`). Two interleaved calls can store one plate twice
  (`InterleavedCallsDuplicate`).
- Validation checks length only (`@NotEmpty`), not blankness. A plate of
  spaces is accepted.
- No storage-level uniqueness constraint exists, so a race produces
  duplicate rows, not `INVALID_ARGUMENT`.

## Model

| member | source | states |
|---|---|---|
| `Entity.Violations` | src/main/kotlin/com/orange/Carro.kt:11 | a property is reported as violated exactly when its string is empty; no violation exactly when both fields are non-empty (blank text passes) |
| `Entity.BlankIsValidEmptyIsNot` | src/main/kotlin/com/orange/Carro.kt:11 | blank strings pass `@NotEmpty`; `("", "")` violates both properties; `("Gol", "")` violates only the plate |
| `Entity.Carro.constructor` | src/main/kotlin/com/orange/Carro.kt:11-14 | the entity takes only `modelo` and `placa`, and its `id` starts as null |
| `Entity.EqualsIgnoresId` | src/main/kotlin/com/orange/Carro.kt:11-15 | data-class equality holds both ways between entities with equal `modelo` and `placa`, whatever their ids (equality reads no mutable field) |
| `Store.Persist` | src/main/kotlin/com/orange/Carro.kt:11-14 | an invalid entity yields a constraint violation listing the violated properties, and the store is unchanged; otherwise exactly one row with the request's values is appended under an id no row had before, which `existsById` then finds; the store invariant is kept and the counter never goes back |
| `Store.Cleared` | src/test/kotlin/com/orange/CarrosEndpointTest.kt:30-33 | after `deleteAll` no plate and no id is found, the identity counter is unchanged, and the invariant is kept |
| `Store.CarroRepository.constructor` | src/main/kotlin/com/orange/Carro.kt:12-13 | a new repository is an empty table whose identity column will hand out 1 first, and it satisfies the invariant; the empty table and the start value 1 are a modelling assumption (the usual start of an `IDENTITY` column), not something the code shows |
| `Store.CarroRepository.ExistsByPlaca` | src/main/kotlin/com/orange/CarrosEndpoint.kt:12 | true exactly when a stored row has exactly this plate |
| `Store.CarroRepository.ExistsById` | src/test/kotlin/com/orange/CarrosEndpointTest.kt:50 | true exactly when a stored row has this id |
| `Store.CarroRepository.Save` | src/main/kotlin/com/orange/CarrosEndpoint.kt:26-27 | the new table and the outcome are those of `Persist`; on success the generated id is written into the entity in place, and on failure the entity's id stays null |
| `Store.CarroRepository.DeleteAll` | src/test/kotlin/com/orange/CarrosEndpointTest.kt:32 | the table becomes that of `Cleared` and stays valid |
| `Endpoint.Signals` | src/main/kotlin/com/orange/CarrosEndpoint.kt:13-41 | each outcome sends exactly one terminal callback, and sends it last: an error is exactly one `onError` with the status and description, a success is exactly `onNext` with the id followed by `onCompleted`; `onError` is sent only for an error outcome, so an error and a response are never both sent; nothing is sent when an exception propagates |
| `Endpoint.Register` | src/main/kotlin/com/orange/CarrosEndpoint.kt:11-42 | a known plate gives `ALREADY_EXISTS` / "carro com placa existente" whatever the model (it wins over validation); otherwise invalid fields give `INVALID_ARGUMENT` / "dados de entrada inválidos"; any other store failure propagates untranslated; the call succeeds exactly when the plate is new, both fields are non-empty and an id is available; every failure leaves the store unchanged; a success appends exactly one row with the request's values under a fresh id that `existsById` finds |
| `Endpoint.RegisterKeepsPlacasUnique` | src/main/kotlin/com/orange/CarrosEndpoint.kt:12-27 | one call never introduces a second row for a plate |
| `Endpoint.CarrosEndpoint.constructor` | src/main/kotlin/com/orange/CarrosEndpoint.kt:9 | the endpoint uses the repository it is given |
| `Endpoint.CarrosEndpoint.Adicionar` | src/main/kotlin/com/orange/CarrosEndpoint.kt:11-42 | the imperative handler leaves the repository in the state `Register` gives and returns its outcome; the `carro.id!!` read after `save` cannot fail; a returned id is found by `existsById`; a failure leaves the repository unchanged |
| `Calls.Run` | src/main/kotlin/com/orange/CarrosEndpoint.kt:11-42 | a sequence of calls yields one outcome per registration, keeps the store invariant, and never moves the counter back |
| `Calls.RunIdsIncrease` | src/main/kotlin/com/orange/CarrosEndpoint.kt:39 | the ids returned along any sequence of calls and resets strictly increase, and lie between the counter before the sequence and the counter after it |
| `Calls.RunIdsFresh` | src/main/kotlin/com/orange/Carro.kt:12-14 | the ids returned by successive successful calls are pairwise distinct, and none of them belonged to a row present when the sequence began |
| `Calls.RunKeepsPlacasUnique` | src/main/kotlin/com/orange/CarrosEndpoint.kt:12-19 | a store that starts without duplicate plates has none after any sequence of calls and resets made one after another |
| `Calls.AddsNewCarro` | src/test/kotlin/com/orange/CarrosEndpointTest.kt:35-52 | on an emptied store, ("Gol", "MGG-4080") succeeds with the counter's value, stores exactly that row, and the id is then found |
| `Calls.RejectsDuplicatePlaca` | src/test/kotlin/com/orange/CarrosEndpointTest.kt:55-76 | after a direct save of plate "MGG-4080", registering ("Palio", "MGG-4080") gives `ALREADY_EXISTS` / "carro com placa existente" and leaves one row |
| `Calls.RejectsEmptyFields` | src/test/kotlin/com/orange/CarrosEndpointTest.kt:79-95 | ("", "") gives `INVALID_ARGUMENT` / "dados de entrada inválidos" on every valid store, and writes nothing |
| `Calls.InterleavedCallsDuplicate` | src/main/kotlin/com/orange/CarrosEndpoint.kt:12-27 | two calls that both check an unused plate before either saves leave two rows with that plate |

## Left out

- The gRPC transport, `StreamObserver`, `Status` and `StatusRuntimeException`
  are left out. The handler returns an `Outcome`, and `Signals` lists the
  callbacks that outcome stands for.
- A null `responseObserver` is left out. With one, `?.` skips every callback.
  The model assumes an observer is present.
- A null `request` is left out. `request!!` throws before anything else runs.
- Micronaut dependency injection (`@Singleton`, the test's `@Factory`) is not
  modelled.
- JPA, Micronaut Data and the annotation-driven validator are left out. An
  in-memory store and the function `Violations` stand in for them.
- Store failures other than identity exhaustion are not modelled: a lost
  connection, a failed transaction and the like. The handler would propagate
  them the same way as `StoreFault`.
- Store.CarroRepository.Save: models only the save of a new entity (`id`
  still null), which is the only way the handler calls it. The merge path for
  an entity that already has an id is not modelled.
- Concurrency is left out. Calls are modelled one after another, and plate
  uniqueness holds only under that assumption. `InterleavedCallsDuplicate`
  shows the interleaving that breaks it.
- The database collation used to compare plates is not modelled. Plates
  compare by exact string equality.
- Kotlin's generated `hashCode`, `toString`, `copy` and `componentN` are left
  out. Only data-class equality is modelled.
- The test's `println` calls and its integration setup are left out.
