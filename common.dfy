/**
 Shared vocabulary of the license database: the optional and failure-carrying
 wrappers, the identification record every lookup and rewrite produces, and the
 errors the database raises.
 */
module Common {

  datatype Option<+T> = None | Some(value: T)

  /** A computation that either yields a value or raises a `FlameError`. */
  datatype Result<+T, +E> = Success(value: T) | Failure(error: E)

  /** A check that either passes or raises. */
  datatype Outcome<+E> = Pass | Fail(error: E)

  /**
   The `{'queried_name', 'name', 'identified_via'}` record: what was looked up,
   what it resolved to, and by which table (`direct`, `operator`, `alias`,
   `scancode_key`) or rewrite pass (`alias`, `scancode`, `operator`, `compat`).
   */
  datatype Identification = Identification(queriedName: string, name: string, identifiedVia: string)

  /** The errors of the database: one constructor per kind of error the modelled core raises or lets through. */
  datatype FlameError =
    | Unidentified(name: string)
    | DuplicateAlias(alias: string, spdxid: string, existing: string)
    | MissingLicense(name: string)
    | ParseFailed(message: string)
    | SpdxValidationFailed(errors: seq<string>)
    | MultipleWords(license: string)

  lemma AppendAssoc<T>(a: seq<T>, b: seq<T>, c: seq<T>)
    ensures a + (b + c) == (a + b) + c
  {
  }

  /** No element occurs twice. */
  predicate Distinct<T(==)>(xs: seq<T>) {
    forall i, j :: 0 <= i < j < |xs| ==> xs[i] != xs[j]
  }

  /** Appending a new element keeps a sequence without repetitions. */
  lemma DistinctSnoc<T>(xs: seq<T>, x: T)
    requires Distinct(xs) && x !in xs
    ensures Distinct(xs + [x])
  {
  }
}
