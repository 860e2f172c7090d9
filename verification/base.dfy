/** Shared vocabulary of the model: optional values, results, the error
    kinds the system raises, and the identity type of its entities. */
module Base {

  /** A value that may be absent; `None` stands for a C# `null`. */
  datatype Option<+T> = None | Some(value: T) {
    function GetOr(default: T): T
    {
      match this
      case Some(v) => v
      case None => default
    }
  }

  /** A nullable C# string (`string?`). */
  type NString = Option<string>

  /** Entity identity. The source uses `Guid`; the model only needs an
      unbounded supply of distinct values with a total order, which `nat`
      provides. Fresh ids are passed in by the caller instead of being drawn
      from `Guid.NewGuid`. */
  type Id = nat

  /** The input field an error is about. `Identifiers` is the
      "plate, chassis or engine number" group of a Moto. */
  datatype Field = Nome | Bairro | Cnpj | LimiteMotos | Identifiers

  /** The failures the core can surface.
      - `ArgumentError`: an `ArgumentException` thrown by a use case;
      - `GeneralError`: a plain `Exception`, thrown by the entities' own
        validation and by the Moto update use case;
      - `PersistenceError`: the store rejected a write (duplicate key,
        missing parent row, value longer than its column). */
  datatype Error =
    | ArgumentError(field: Field)
    | GeneralError(field: Field)
    | PersistenceError

  datatype Result<+T> = Ok(value: T) | Err(error: Error)
}
