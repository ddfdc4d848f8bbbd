/** Findings, their fixed messages, and the channel detectors send them on. */
module Findings {

  /** One reported issue: a file, a line (0 when no line applies) and a message. */
  datatype Finding = Finding(file: string, line: nat, message: string)

  const ParseErrorMessage: string := "Error parsing file"
  const CredentialsMessage: string := "Potential hardcoded credentials"
  const InsecureHttpMessage: string := "Insecure HTTP URL detected"
  const CommandInjectionMessage: string := "Potential command injection detected"

  /** The messages the three node detectors emit. */
  predicate IsDetectorMessage(m: string) {
    m == CredentialsMessage || m == InsecureHttpMessage || m == CommandInjectionMessage
  }

  /** Every message a file analysis can emit. */
  predicate IsKnownMessage(m: string) {
    m == ParseErrorMessage || IsDetectorMessage(m)
  }

  /**
   * The shared findings channel, seen by one writer at a time: `buffer`
   * holds everything sent so far, in sending order. Sending only appends.
   */
  class FindingChannel {
    var buffer: seq<Finding>

    constructor ()
      ensures buffer == []
    {
      buffer := [];
    }

    method Send(f: Finding)
      modifies this
      ensures buffer == old(buffer) + [f]
    {
      buffer := buffer + [f];
    }
  }
}
