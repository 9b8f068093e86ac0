/**
 * gin's `BindJSON` followed by the struct-tag validator. Decoding either
 * fails outright (syntax or type error) or yields the request struct, whose
 * tagged fields are then checked in declaration order.
 */
module Binding {
  import opened Wrappers
  import opened Http

  /** What decoding the JSON body produced. */
  datatype Body<T> = Malformed(reason: string) | Decoded(value: T)

  /** The outcome of one field's validation tags. */
  datatype Check = Check(field: string, ok: bool)

  predicate AllValid(checks: seq<Check>) {
    forall i :: 0 <= i < |checks| ==> checks[i].ok
  }

  /** Position of the first failing field, `validationErrors[0]`. */
  function FirstInvalid(checks: seq<Check>): (r: Option<nat>)
    ensures r.None? <==> AllValid(checks)
    ensures r.Some? ==> r.value < |checks| && !checks[r.value].ok && AllValid(checks[..r.value])
  {
    if |checks| == 0 then None
    else if !checks[0].ok then Some(0)
    else match FirstInvalid(checks[1..])
      case None => None
      case Some(k) =>
        assert checks[..k + 1] == [checks[0]] + checks[1..][..k];
        Some(k + 1)
  }

  /** The message a failing field produces. */
  function NotValid(field: string): string {
    field + " not valid"
  }

  /** The `required` tag: a string must not be the zero value "". */
  predicate Required(s: string) {
    |s| > 0
  }

  /** `required` on a number: it must not be the zero value 0. */
  predicate RequiredNumber(n: int) {
    n != 0
  }

  /** Bind a typed request. A failing field is answered with 400 and
      "<Field> not valid". A body that does not decode makes the handler's
      `err.(validator.ValidationErrors)` assertion panic after gin has written
      status 400, so the client sees 400 without an envelope. */
  function Bind<T>(body: Body<T>, rules: T -> seq<Check>): (r: Result<T, Response>)
    ensures r.Ok? <==> body.Decoded? && AllValid(rules(body.value))
    ensures r.Ok? ==> r.value == body.value
    ensures r.Err? ==> r.error.status == StatusBadRequest
    ensures body.Malformed? ==> r.error.body == NoBody
    ensures body.Decoded? && r.Err? ==>
              exists i :: 0 <= i < |rules(body.value)| && !rules(body.value)[i].ok
                && AllValid(rules(body.value)[..i])
                && r.error.body == Failure(NotValid(rules(body.value)[i].field))
  {
    match body
    case Malformed(_) => Err(Response(StatusBadRequest, NoBody))
    case Decoded(req) =>
      var checks := rules(req);
      match FirstInvalid(checks)
      case None => Ok(req)
      case Some(i) => Err(Fail(StatusBadRequest, NotValid(checks[i].field)))
  }

  /** A string field of a `map[string]string` body; a missing key reads as "". */
  function Field(m: map<string, string>, key: string): (v: string)
    ensures key in m ==> v == m[key]
    ensures key !in m ==> v == ""
  {
    if key in m then m[key] else ""
  }
}
