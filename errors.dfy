/** The sentinel errors of the package (error.go). */
module Errors {

  /** The five sentinel error values the package exports. */
  datatype Kind = ReadOnly | CreateOnly | NotString | InvalidFormat | NotGoTime

  /** An error as a caller receives it: one of the package's sentinels, or an
      error that some other Type returned. Go compares errors by identity, so a
      foreign error is known only by which value it is. */
  datatype Error = Sentinel(kind: Kind) | Foreign(id: nat)

  /** The text each sentinel was created with, as its Error() method reports it. */
  function Message(k: Kind): (m: string)
    ensures m != []
  {
    match k
    case ReadOnly => "read-only"
    case CreateOnly => "create-only"
    case NotString => "not a string"
    case InvalidFormat => "invalid format"
    case NotGoTime => "not a time.Time"
  }

  /** The messages tell the kinds apart: two sentinels share a message exactly
      when they are the same sentinel. */
  lemma MessagesIdentifyKinds(a: Kind, b: Kind)
    ensures Message(a) == Message(b) <==> a == b
  {
  }

  /** The exact texts callers and tests match on. */
  lemma MessageTexts()
    ensures Message(ReadOnly) == "read-only"
    ensures Message(CreateOnly) == "create-only"
    ensures Message(NotString) == "not a string"
    ensures Message(InvalidFormat) == "invalid format"
    ensures Message(NotGoTime) == "not a time.Time"
  {
  }
}
