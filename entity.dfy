/** The `Carro` entity: a vehicle record with an immutable model and plate,
    validated by `@NotNull @NotEmpty`, and a nullable identity that only the
    store writes. */
module Entity {

  datatype Option<T> = None | Some(value: T)

  /** Largest value of a Kotlin `Long`, the type of the generated identity. */
  const MaxLong: int := 0x7FFF_FFFF_FFFF_FFFF

  /** The two constrained properties of a `Carro`. */
  datatype Field = Modelo | Placa

  /** `@NotEmpty` on a `String`: the length is positive. It looks at the length
      only, so a string of blanks satisfies it. `@NotNull` adds nothing here:
      a Kotlin `String` is never null. */
  predicate NotEmpty(s: string) {
    |s| > 0
  }

  /** Both constraints of the entity hold. */
  predicate IsValid(modelo: string, placa: string) {
    NotEmpty(modelo) && NotEmpty(placa)
  }

  /** The properties the bean validator reports as violated; a
      `ConstraintViolationException` is raised exactly when this is non-empty. */
  function Violations(modelo: string, placa: string): (v: set<Field>)
    ensures Modelo in v <==> |modelo| == 0
    ensures Placa in v <==> |placa| == 0
    ensures v == {} <==> IsValid(modelo, placa)
  {
    (if NotEmpty(modelo) then {} else {Modelo}) + (if NotEmpty(placa) then {} else {Placa})
  }

  /** The JPA entity. `modelo` and `placa` are `val`s, hence constants; `id` is
      the only `var` and starts out null (`None`). */
  class Carro {
    const modelo: string
    const placa: string
    var id: Option<int>

    /** The primary constructor takes the two values only: no caller can
        supply an id. */
    constructor (modelo: string, placa: string)
      ensures this.modelo == modelo && this.placa == placa
      ensures id == None
    {
      this.modelo := modelo;
      this.placa := placa;
      id := None;
    }

    /** Data-class equality: it compares the primary-constructor properties
        only. It reads no mutable field, so assigning `id` cannot change it. */
    predicate Equals(other: Carro) {
      modelo == other.modelo && placa == other.placa
    }
  }

  /** Two entities built from the same values are equal whatever their ids. */
  lemma EqualsIgnoresId(a: Carro, b: Carro)
    requires a.modelo == b.modelo && a.placa == b.placa
    ensures a.Equals(b) && b.Equals(a)
  {
  }

  /** Blank text passes `@NotEmpty`; the empty string does not. */
  lemma BlankIsValidEmptyIsNot()
    ensures Violations(" ", "   ") == {}
    ensures Violations("", "") == {Modelo, Placa}
    ensures Violations("Gol", "") == {Placa}
  {
  }
}
