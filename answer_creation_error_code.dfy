/**
 * com.upgrad.quora.service.common.AnswerCreationErrorCode: Error codes of the create-answer operation.
 * An enum with final `code` and `defaultMessage` fields and a private LOOKUP
 * map from code to constant, filled once by its static initialiser.
 */
module AnswerCreationErrorCode {
  import opened ErrorCodes

  datatype Constant = QUES_001 | ATHR_002 {

    /** The constructor arguments of this constant. */
    function Entry(): ErrorCode {
      match this
      case QUES_001 => ErrorCode("QUES-001", "The question entered is invalid")
      case ATHR_002 => ErrorCode("ATHR-002", "User is signed out.Sign in first to post an answer")
    }

    /** getCode(): the first constructor argument. */
    function Code(): string { Entry().code }

    /** getDefaultMessage(): the second constructor argument. */
    function DefaultMessage(): string { Entry().defaultMessage }

    /** Position of this constant in values(). */
    function Ordinal(): (i: nat)
      ensures i < |Values| && Values[i] == this
    {
      match this
      case QUES_001 => 0
      case ATHR_002 => 1
    }
  }

  /** values(), in declaration order. */
  const Values: seq<Constant> := [QUES_001, ATHR_002]

  function CodeOf(c: Constant): string { c.Code() }

  /** LOOKUP once the static initialiser has run. */
  function Lookup(): map<string, Constant> {
    BuildLookup(Values, CodeOf)
  }

  /** The codes of the constants are pairwise distinct. */
  lemma CodesDistinct()
    ensures DistinctCodes(Values, CodeOf)
  {
  }

  /**
   * LOOKUP holds exactly one entry per constant, keyed by that constant's code,
   * so a code read back through LOOKUP yields the constant that carries it.
   */
  lemma LookupTable()
    ensures Lookup() == map["QUES-001" := QUES_001, "ATHR-002" := ATHR_002]
    ensures forall c: Constant :: Lookup()[c.Code()] == c
  {
  }
}
