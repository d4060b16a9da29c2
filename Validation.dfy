/** The field validators shared by the request models: `not_empty` and `min_length`. */
module Validation {
  import opened Wrappers
  import opened Text

  /** Why one field was rejected. */
  datatype Reason = Blank | TooShort(min: nat)

  /** One rejected field of a request body, named as on the wire. */
  datatype FieldError = FieldError(field: string, reason: Reason)

  /** `not_empty`: reject an empty or whitespace-only value, otherwise return it stripped. */
  function NotEmpty(v: string): (r: Result<string, Reason>)
    ensures r.Ok? <==> !AllSpace(v)
    ensures r.Err? ==> r.error == Blank
    ensures r.Ok? ==> r.value == Strip(v) && r.value != []
  {
    StripEmptyIff(v);
    if v == [] || Strip(v) == [] then Err(Blank) else Ok(Strip(v))
  }

  /** `min_length`: reject a value with fewer than `n` characters, otherwise pass it on. */
  function MinLength(v: string, n: nat): (r: Result<string, Reason>)
    ensures r.Ok? <==> |v| >= n
    ensures r.Ok? ==> r.value == v
    ensures r.Err? ==> r.error == TooShort(n)
  {
    if |v| < n then Err(TooShort(n)) else Ok(v)
  }

  /** The validators of one field apply in declaration order: `not_empty` first, then, when the
      field has a minimum length, `min_length` on the value `not_empty` returned. The first
      failure is the field's only error. */
  function CheckField(name: string, v: string, min: nat): (r: Result<string, FieldError>)
    ensures r.Ok? <==> Strip(v) != [] && |Strip(v)| >= min
    ensures r.Ok? ==> r.value == Strip(v)
    ensures r.Err? ==> r.error.field == name
    ensures r.Err? ==> (r.error.reason == Blank <==> Strip(v) == [])
  {
    match NotEmpty(v)
    case Err(why) => Err(FieldError(name, why))
    case Ok(s) =>
      if min == 0 then Ok(s)
      else match MinLength(s, min)
        case Err(why) => Err(FieldError(name, why))
        case Ok(s') => Ok(s')
  }

  /** The error a field check contributes to the report: none, or its one error. */
  function ErrorOf<T>(check: Result<T, FieldError>): (errs: seq<FieldError>)
    ensures errs == [] <==> check.Ok?
    ensures check.Err? ==> errs == [check.error]
  {
    if check.Err? then [check.error] else []
  }
}
