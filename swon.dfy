/** The Swift error type and the bridge from `swon_result` to thrown errors. */
module Swon {
  import opened Wrappers
  import opened SwonC

  /**
   * `SWONError`, plus `Trap`: not a case of the Swift enum but a runtime
   * trap (the process stops), kept apart from the thrown errors.
   */
  datatype SwonError = Required(field: string) | Invalid(field: string) | Message(text: string) | Trap(reason: string)

  /**
   * `swon_result.check(field)`: Null throws `required`, Invalid throws
   * `invalid`, Valid returns normally; the field is passed through as is.
   */
  function Check(result: SwonResult, field: string): (o: Outcome<SwonError>)
    ensures result == ResultNull ==> o == Fail(Required(field))
    ensures result == ResultInvalid ==> o == Fail(Invalid(field))
    ensures o.Pass? <==> result == ResultValid
    ensures o.Fail? ==> (o.error.Required? || o.error.Invalid?) && o.error.field == field
  {
    match result
    case ResultNull => Fail(Required(field))
    case ResultInvalid => Fail(Invalid(field))
    case ResultValid => Pass
  }
}
