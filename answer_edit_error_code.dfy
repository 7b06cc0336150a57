/**
 * com.upgrad.quora.service.common.AnswerEditErrorCode: Error codes of the edit-answer operation.
 * An enum with final `code` and `defaultMessage` fields and a private LOOKUP
 * map from code to constant, filled once by its static initialiser.
 */
module AnswerEditErrorCode {
  import opened ErrorCodes

  datatype Constant = ATHR_002 | ATHR_003 | ANS_001 {

    /** The constructor arguments of this constant. */
    function Entry(): ErrorCode {
      match this
      case ATHR_002 => ErrorCode("ATHR-002", "User is signed out.Sign in first to edit an answer")
      case ATHR_003 => ErrorCode("ATHR-003", "Only the answer owner can edit the answer")
      case ANS_001 => ErrorCode("ANS-001", "Entered answer uuid does not exist")
    }

    /** getCode(): the first constructor argument. */
    function Code(): string { Entry().code }

    /** getDefaultMessage(): the second constructor argument. */
    function DefaultMessage(): string { Entry().defaultMessage }

    /** Position of this constant in values(). */
    function Ordinal(): (i: nat)
      ensures i < |Values| && Values[i] == this
    {
      match this
      case ATHR_002 => 0
      case ATHR_003 => 1
      case ANS_001 => 2
    }
  }

  /** values(), in declaration order. */
  const Values: seq<Constant> := [ATHR_002, ATHR_003, ANS_001]

  function CodeOf(c: Constant): string { c.Code() }

  /** LOOKUP once the static initialiser has run. */
  function Lookup(): map<string, Constant> {
    BuildLookup(Values, CodeOf)
  }

  /** The codes of the constants are pairwise distinct. */
  lemma CodesDistinct()
    ensures DistinctCodes(Values, CodeOf)
  {
  }

  /**
   * LOOKUP holds exactly one entry per constant, keyed by that constant's code,
   * so a code read back through LOOKUP yields the constant that carries it.
   */
  lemma LookupTable()
    ensures Lookup() == map["ATHR-002" := ATHR_002, "ATHR-003" := ATHR_003, "ANS-001" := ANS_001]
    ensures forall c: Constant :: Lookup()[c.Code()] == c
  {
    CodesDistinct();
    forall c: Constant ensures c.Code() in Lookup() && Lookup()[c.Code()] == c {
      LookupInverts(Values, CodeOf, c.Ordinal());
    }
    var expected := map["ATHR-002" := ATHR_002, "ATHR-003" := ATHR_003, "ANS-001" := ANS_001];
    forall k | k in Lookup() ensures k in expected {
      var i :| 0 <= i < |Values| && CodeOf(Values[i]) == k;
      var c := Values[i];
      match c
      case ATHR_002 => assert k == ATHR_002.Code();
      case ATHR_003 => assert k == ATHR_003.Code();
      case ANS_001 => assert k == ANS_001.Code();
    }
    assert ATHR_002.Code() in Lookup();
    assert ATHR_003.Code() in Lookup();
    assert ANS_001.Code() in Lookup();
    assert Lookup().Keys == expected.Keys;
    forall k | k in expected ensures Lookup()[k] == expected[k] {
      assert expected[k].Code() == k;
    }
  }
}
