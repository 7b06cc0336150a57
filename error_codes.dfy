/**
 * The shape shared by every error-code enum of the service layer
 * (com.upgrad.quora.service.common.ErrorCode): a (code, default message) pair,
 * the exceptions the services throw, and the one-time LOOKUP fill every enum
 * performs in its static initialiser.
 */
module ErrorCodes {

  /** One enum constant as seen through getCode() and getDefaultMessage(). */
  datatype ErrorCode = ErrorCode(code: string, defaultMessage: string)

  /** The exception classes thrown by the core; the class decides the HTTP status elsewhere. */
  datatype ExceptionKind =
    | AuthorizationFailed   // AuthorizationFailedException
    | InvalidQuestion       // InvalidQuestionException
    | AnswerNotFound        // AnswerNotFoundException
    | UserNotFound          // UserNotFoundException

  /** A thrown exception: its class, its code and its message. */
  datatype Exception = Exception(kind: ExceptionKind, code: string, message: string)

  /** `new K(c.getCode(), c.getDefaultMessage())` */
  function Thrown(kind: ExceptionKind, c: ErrorCode): Exception {
    Exception(kind, c.code, c.defaultMessage)
  }

  /**
   * Constants of enums that are not part of this model (AuthErrorCode, the
   * Question*ErrorCode enums, GellAllQuestionByUserErrorCode, GetAllQuestionErrorCode)
   * and the name of UserRole.ADMIN. Their literal values are unknown here, so
   * every operation that uses them takes them as a parameter.
   */
  datatype ExternalCodes = ExternalCodes(
    authAthr001: ErrorCode,            // AuthErrorCode.ATHR_001
    authAthr002: ErrorCode,            // AuthErrorCode.ATHR_002
    authReloginPrompt: ErrorCode,      // AuthErrorCode.ATHR_002_RELOGIN_PROMPT
    authUsr001: ErrorCode,             // AuthErrorCode.USR_001
    createQuestionPrompt: ErrorCode,   // QuestionCreationErrorCode.ATHR_002_CREATEQUESTION_PROMPT
    deleteQuestionMissing: ErrorCode,  // QuestionDeleteErrorCode.QUES_001_DELETEQUESTION_ACCESS
    deleteQuestionDenied: ErrorCode,   // QuestionDeleteErrorCode.ATHR_003_DELETEQUESTION_ACCESS
    deleteQuestionPrompt: ErrorCode,   // QuestionDeleteErrorCode.ATHR_002_DELETEQUESTION_PROMPT
    editQuestionMissing: ErrorCode,    // QuestionEditErrorCode.QUES_001_EDITQUESTION_ACCESS
    editQuestionDenied: ErrorCode,     // QuestionEditErrorCode.ATHR_003_EDITQUESTION_ACCESS
    editQuestionPrompt: ErrorCode,     // QuestionEditErrorCode.ATHR_002_EDITQUESTION_PROMPT
    allQuestionsPrompt: ErrorCode,     // GetAllQuestionErrorCode.ATHR_002_GETALLQUESTION_PROMPT
    byUserUnknownUser: ErrorCode,      // GellAllQuestionByUserErrorCode.USR_001
    byUserPrompt: ErrorCode,           // GellAllQuestionByUserErrorCode.ATHR_002_GETALLQUESTIONBYUSER_PROMPT
    adminRole: string                  // UserRole.ADMIN.getName()
  )

  /** No two constants of `values` share a code. */
  ghost predicate DistinctCodes<E>(values: seq<E>, code: E -> string) {
    forall i, j :: 0 <= i < j < |values| ==> code(values[i]) != code(values[j])
  }

  /**
   * The static initialiser `for (e : values()) LOOKUP.put(e.getCode(), e)`:
   * the map after putting every constant of `values` in declaration order,
   * a later put overwriting an earlier one with the same code.
   */
  function BuildLookup<E>(values: seq<E>, code: E -> string): (m: map<string, E>)
    ensures forall i :: 0 <= i < |values| ==> code(values[i]) in m
    ensures forall c :: c in m ==> exists i :: 0 <= i < |values| && code(values[i]) == c
    ensures forall c :: c in m ==> code(m[c]) == c && m[c] in values
    decreases |values|
  {
    if values == [] then map[]
    else
      var n := |values| - 1;
      var m' := BuildLookup(values[..n], code);
      assert forall i :: 0 <= i < n ==> values[..n][i] == values[i];
      m'[code(values[n]) := values[n]]
  }

  /** With pairwise distinct codes, LOOKUP sends every constant's code back to that constant. */
  lemma LookupInverts<E>(values: seq<E>, code: E -> string, i: nat)
    requires DistinctCodes(values, code)
    requires i < |values|
    ensures code(values[i]) in BuildLookup(values, code)
    ensures BuildLookup(values, code)[code(values[i])] == values[i]
  {
  }
}
