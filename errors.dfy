/** The sentinel errors of error.go, and errors built from a message. */
module Errors {

  datatype Error =
    | DefinitionLoaded
    | ClientMissing
    | NoMockResponse
    | UnsupportedContentType
    | Common
    | NoContentType
    | Message(text: string) // an error made on the spot with `fmt.Errorf`

  /** The text each error prints. */
  function Text(e: Error): string {
    match e
    case DefinitionLoaded => "mock definition had been loaded"
    case ClientMissing => "client missing"
    case NoMockResponse => "no mock response prepared"
    case UnsupportedContentType => "unsupported content type"
    case Common => "common error"
    case NoContentType => "unable to find content type"
    case Message(text) => text
  }

  /** The sentinels print distinct texts, so each one can be told apart by its text alone. */
  lemma SentinelTexts(e1: Error, e2: Error)
    requires !e1.Message? && !e2.Message?
    ensures Text(e1) == Text(e2) <==> e1 == e2
  {
  }
}
