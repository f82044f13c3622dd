/** The shared vocabulary of the service (service.go): provider names, content
    addresses and the errors the read path can report. */
module ServiceTypes {

  /** A provider name; the source's `Provider` is a named string type. */
  type Provider = string

  /** A logical pointer into one provider's current content list. */
  datatype Address = Address(provider: Provider, index: int)

  /** Go's `error` values on the read path: a `ValidationError` (a named string
      type) or any other error, such as one a substituted sequencer returns. */
  datatype Error = ValidationError(reason: string) | OtherError(reason: string)

  /** The message both the sequencer and the service use for a negative
      `limit` or `offset`. */
  const PositiveMessage: string := "limit and offset should be positive"

  /** `error.Error()`: a validation error reports its underlying string as is. */
  function ErrorText(e: Error): (text: string)
    ensures e.ValidationError? ==> text == e.reason
  {
    match e
    case ValidationError(reason) => reason
    case OtherError(reason) => reason
  }
}
