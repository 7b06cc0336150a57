/**
 * com.upgrad.quora.api.controller.AnswerController: the four answer
 * endpoints. Each first validates the access token through
 * checkForAuthorization, which rewrites the re-login failure into the
 * endpoint's own signed-out message, and only then calls AnswerService.
 */
module AnswerController {
  import opened Wrappers
  import opened ErrorCodes
  import opened Entities
  import opened Http
  import AnswerService
  import AnswerCreationErrorCode
  import AnswerEditErrorCode
  import AnswerDeleteErrorCode
  import AnswerGetAllErrorCode

  datatype AnswerResponse = AnswerResponse(id: string, status: string)
  datatype AnswerDeleteResponse = AnswerDeleteResponse(id: string, status: string)
  datatype AnswerDetailsResponse = AnswerDetailsResponse(id: string, answerContent: string, questionContent: string)

  /** The failure CommonService.validateUser raises for a signed-out session. */
  predicate IsReloginFailure(e: Exception, ext: ExternalCodes) {
    e.kind == AuthorizationFailed && e.code == ext.authReloginPrompt.code
  }

  /**
   * checkForAuthorization, applied to the outcome of CommonService.validateUser:
   * a validated session is returned unchanged, the re-login failure becomes
   * exactly the endpoint-supplied (errorCode, defaultMessage), and any other
   * failure is rethrown as it is.
   */
  function CheckForAuthorization(validated: Result<UserAuth, Exception>, errorCode: string,
                                 defaultMessage: string, ext: ExternalCodes): (r: Result<UserAuth, Exception>)
    ensures r.Success? <==> validated.Success?
    ensures validated.Success? ==> r == validated
    ensures validated.Failure? && IsReloginFailure(validated.error, ext) ==>
              r == Failure(Exception(AuthorizationFailed, errorCode, defaultMessage))
    ensures validated.Failure? && !IsReloginFailure(validated.error, ext) ==> r == validated
    ensures r.Failure? ==> r.error.kind == validated.error.kind
  {
    match validated
    case Success(auth) => validated
    case Failure(e) =>
      if IsReloginFailure(e, ext) then Failure(Exception(AuthorizationFailed, errorCode, defaultMessage))
      else validated
  }

  /** Rewriting is stable: checking an already rewritten outcome changes nothing. */
  lemma CheckForAuthorizationIdempotent(validated: Result<UserAuth, Exception>, errorCode: string,
                                        defaultMessage: string, ext: ExternalCodes)
    ensures var once := CheckForAuthorization(validated, errorCode, defaultMessage, ext);
            CheckForAuthorization(once, errorCode, defaultMessage, ext) == once
  {
  }

  datatype Endpoint = CreateAnswerEndpoint | EditAnswerEndpoint | DeleteAnswerEndpoint | ListAnswersEndpoint

  /** The (code, message) pair each endpoint passes to checkForAuthorization. */
  function Context(endpoint: Endpoint): ErrorCode {
    match endpoint
    case CreateAnswerEndpoint => AnswerCreationErrorCode.Constant.ATHR_002.Entry()
    case EditAnswerEndpoint => AnswerEditErrorCode.Constant.ATHR_002.Entry()
    case DeleteAnswerEndpoint => AnswerDeleteErrorCode.Constant.ATHR_002.Entry()
    case ListAnswersEndpoint => AnswerDeleteErrorCode.Constant.ATHR_002.Entry()
  }

  function Authorize(validated: Result<UserAuth, Exception>, endpoint: Endpoint, ext: ExternalCodes)
    : Result<UserAuth, Exception>
  {
    CheckForAuthorization(validated, Context(endpoint).code, Context(endpoint).defaultMessage, ext)
  }

  /**
   * Every endpoint reports a signed-out session as ATHR-002. Create, edit and
   * delete each word it their own way; the list endpoint reuses the delete
   * wording instead of AnswerGetAllErrorCode.ATHR_002's own message.
   */
  lemma EndpointContexts()
    ensures forall e: Endpoint :: Context(e).code == "ATHR-002"
    ensures Context(CreateAnswerEndpoint).defaultMessage != Context(EditAnswerEndpoint).defaultMessage
    ensures Context(CreateAnswerEndpoint).defaultMessage != Context(DeleteAnswerEndpoint).defaultMessage
    ensures Context(EditAnswerEndpoint).defaultMessage != Context(DeleteAnswerEndpoint).defaultMessage
    ensures Context(ListAnswersEndpoint) == AnswerDeleteErrorCode.Constant.ATHR_002.Entry()
    ensures AnswerGetAllErrorCode.Constant.ATHR_002.Code() == Context(ListAnswersEndpoint).code
    ensures AnswerGetAllErrorCode.Constant.ATHR_002.DefaultMessage() != Context(ListAnswersEndpoint).defaultMessage
  {
  }

  /**
   * createAnswer: after authorization, AnswerService.addAnswer with the
   * session's user as owner and the path's question uuid; 201 with the new
   * answer's uuid.
   */
  method CreateAnswer(db: Database, validateUser: string -> Result<UserAuth, Exception>, ext: ExternalCodes,
                      questionId: string, accessToken: string, answer: string,
                      freshUuid: string, now: Time, generatedId: int)
    returns (r: Result<Response<AnswerResponse>, Exception>)
    requires db.Valid()
    requires freshUuid !in db.answers.rows
    modifies db
    ensures db.Valid()
    ensures db.questions == old(db.questions) && db.users == old(db.users) && db.sessions == old(db.sessions)
    ensures var auth := Authorize(validateUser(accessToken), CreateAnswerEndpoint, ext);
      && (auth.Failure? ==> r == Failure(auth.error) && db.answers == old(db.answers))
      && (auth.Success? && questionId !in old(db.questions.rows) ==>
            && r == Failure(Thrown(InvalidQuestion, AnswerCreationErrorCode.Constant.QUES_001.Entry()))
            && db.answers == old(db.answers))
      && (auth.Success? && questionId in old(db.questions.rows) ==>
            && r == Success(Response(AnswerResponse(freshUuid, "ANSWER CREATED"), CREATED))
            && db.answers == old(db.answers).Insert(freshUuid,
                 Answer(generatedId, freshUuid, answer, now, auth.value.user, old(db.questions.rows[questionId]))))
  {
    var auth := Authorize(validateUser(accessToken), CreateAnswerEndpoint, ext);
    if auth.Failure? {
      return Failure(auth.error);
    }
    var added := AnswerService.AddAnswer(db, answer, auth.value.user, questionId, freshUuid, now, generatedId);
    match added
    case Failure(e) =>
      r := Failure(e);
    case Success(a) =>
      r := Success(Response(AnswerResponse(a.uuid, "ANSWER CREATED"), CREATED));
  }

  /**
   * editAnswer: after authorization, AnswerService.editAnswer on behalf of the
   * session's user; 201 (not 200) with the answer's uuid.
   */
  method EditAnswer(db: Database, validateUser: string -> Result<UserAuth, Exception>, ext: ExternalCodes,
                    answerId: string, accessToken: string, content: string, now: Time)
    returns (r: Result<Response<AnswerResponse>, Exception>)
    requires db.Valid()
    requires validateUser(accessToken).Success? ==> validateUser(accessToken).value.user.uuid in db.users
    modifies db
    ensures db.Valid()
    ensures db.questions == old(db.questions) && db.users == old(db.users) && db.sessions == old(db.sessions)
    ensures var auth := Authorize(validateUser(accessToken), EditAnswerEndpoint, ext);
      && (auth.Failure? ==> r == Failure(auth.error) && db.answers == old(db.answers))
      && (auth.Success? && answerId !in old(db.answers.rows) ==>
            && r == Failure(Thrown(AnswerNotFound, AnswerEditErrorCode.Constant.ANS_001.Entry()))
            && db.answers == old(db.answers))
      && (auth.Success? && answerId in old(db.answers.rows) ==>
            var stored := old(db.answers.rows[answerId]);
            && (stored.owner.uuid != auth.value.user.uuid ==>
                  && r == Failure(Thrown(AuthorizationFailed, AnswerEditErrorCode.Constant.ATHR_003.Entry()))
                  && db.answers == old(db.answers))
            && (stored.owner.uuid == auth.value.user.uuid ==>
                  && r == Success(Response(AnswerResponse(answerId, "ANSWER EDITED"), CREATED))
                  && db.answers == old(db.answers).Update(answerId,
                       Answer(stored.id, answerId, content, now, auth.value.user, stored.question))))
  {
    var auth := Authorize(validateUser(accessToken), EditAnswerEndpoint, ext);
    if auth.Failure? {
      return Failure(auth.error);
    }
    var edited := AnswerService.EditAnswer(db, answerId, content, auth.value.user, now);
    match edited
    case Failure(e) =>
      r := Failure(e);
    case Success(a) =>
      r := Success(Response(AnswerResponse(a.uuid, "ANSWER EDITED"), CREATED));
  }

  /**
   * deleteUser (the delete-answer endpoint): after authorization,
   * AnswerService.deleteAnswer for the session's user; 200 with the deleted
   * answer's uuid.
   */
  method DeleteUser(db: Database, validateUser: string -> Result<UserAuth, Exception>, ext: ExternalCodes,
                    answerId: string, accessToken: string)
    returns (r: Result<Response<AnswerDeleteResponse>, Exception>)
    requires db.Valid()
    modifies db
    ensures db.Valid()
    ensures db.questions == old(db.questions) && db.users == old(db.users) && db.sessions == old(db.sessions)
    ensures var auth := Authorize(validateUser(accessToken), DeleteAnswerEndpoint, ext);
      && (auth.Failure? ==> r == Failure(auth.error) && db.answers == old(db.answers))
      && (auth.Success? && answerId !in old(db.answers.rows) ==>
            && r == Failure(Thrown(AnswerNotFound, AnswerEditErrorCode.Constant.ANS_001.Entry()))
            && db.answers == old(db.answers))
      && (auth.Success? && answerId in old(db.answers.rows) ==>
            var stored := old(db.answers.rows[answerId]);
            var user := auth.value.user;
            && (stored.owner.uuid == user.uuid && user.role == ext.adminRole ==>
                  && r == Success(Response(AnswerDeleteResponse(answerId, "ANSWER DELETED"), OK))
                  && db.answers == old(db.answers).Delete(answerId))
            && (stored.owner.uuid != user.uuid || user.role != ext.adminRole ==>
                  && r == Failure(Thrown(AuthorizationFailed, AnswerDeleteErrorCode.Constant.ATHR_003.Entry()))
                  && db.answers == old(db.answers)))
  {
    var auth := Authorize(validateUser(accessToken), DeleteAnswerEndpoint, ext);
    if auth.Failure? {
      return Failure(auth.error);
    }
    var deleted := AnswerService.DeleteAnswer(db, answerId, auth.value.user, ext);
    match deleted
    case Failure(e) =>
      r := Failure(e);
    case Success(a) =>
      r := Success(Response(AnswerDeleteResponse(a.uuid, "ANSWER DELETED"), OK));
  }

  /** The response entries of an answer list: uuid, text and question content, one per answer, in order. */
  method ToDetails(answers: seq<Answer>) returns (details: seq<AnswerDetailsResponse>)
    ensures |details| == |answers|
    ensures forall i :: 0 <= i < |answers| ==>
              details[i] == AnswerDetailsResponse(answers[i].uuid, answers[i].answer, answers[i].question.content)
  {
    details := [];
    for i := 0 to |answers|
      invariant |details| == i
      invariant forall j :: 0 <= j < i ==>
                  details[j] == AnswerDetailsResponse(answers[j].uuid, answers[j].answer, answers[j].question.content)
    {
      var answerEntity := answers[i];
      details := details + [AnswerDetailsResponse(answerEntity.uuid, answerEntity.answer,
                                                  answerEntity.question.content)];
    }
  }

  /**
   * getAllAnswersToQuestion: after authorization (with the delete wording),
   * AnswerService.getAllAnswer; 200 with one entry per answer, in the same
   * order, carrying the answer's uuid, its content and its question's content.
   */
  method GetAllAnswersToQuestion(db: Database, validateUser: string -> Result<UserAuth, Exception>,
                                 ext: ExternalCodes, questionId: string, accessToken: string)
    returns (r: Result<Response<seq<AnswerDetailsResponse>>, Exception>)
    ensures var auth := Authorize(validateUser(accessToken), ListAnswersEndpoint, ext);
      && (auth.Failure? ==> r == Failure(auth.error))
      && (auth.Success? ==>
            match AnswerService.GetAllAnswer(db.questions, db.answers, questionId)
            case Failure(e) => r == Failure(e)
            case Success(answers) =>
              && r.Success? && r.value.status == OK
              && |r.value.body| == |answers|
              && forall i :: 0 <= i < |answers| ==>
                   r.value.body[i] == AnswerDetailsResponse(answers[i].uuid, answers[i].answer,
                                                            answers[i].question.content))
  {
    var auth := Authorize(validateUser(accessToken), ListAnswersEndpoint, ext);
    if auth.Failure? {
      return Failure(auth.error);
    }
    var listed := AnswerService.GetAllAnswer(db.questions, db.answers, questionId);
    if listed.Failure? {
      return Failure(listed.error);
    }
    var allAnswers := ToDetails(listed.value);
    r := Success(Response(allAnswers, OK));
  }
}
