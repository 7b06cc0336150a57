/**
 * com.upgrad.quora.api.controller.QuestionController: the five question
 * endpoints. Each validates the token through CommonService.validateUser
 * before calling QuestionService; its catch block keeps the failure's code
 * and may swap in an endpoint-specific message.
 */
module QuestionController {
  import opened Wrappers
  import opened ErrorCodes
  import opened Entities
  import opened Http
  import QuestionService

  datatype QuestionResponse = QuestionResponse(id: string, status: string)
  datatype QuestionDetailsResponse = QuestionDetailsResponse(id: string, content: string)

  /** The catch block's test `e.getCode().equals(c.getCode())` on an AuthorizationFailedException. */
  predicate Caught(e: Exception, c: ErrorCode) {
    e.kind == AuthorizationFailed && e.code == c.code
  }

  /**
   * A catch block with one rewrite case: the failure whose code is `c`'s is
   * rethrown with `c`'s message; any other failure passes through.
   */
  function Rewrite(e: Exception, c: ErrorCode): (r: Exception)
    ensures r.kind == e.kind && r.code == e.code
    ensures Caught(e, c) ==> r.message == c.defaultMessage
    ensures !Caught(e, c) ==> r == e
  {
    if Caught(e, c) then Thrown(AuthorizationFailed, c) else e
  }

  /** createQuestion's catch block: its ATHR_002 prompt first, then AuthErrorCode.USR_001. */
  function RemapCreateQuestion(e: Exception, ext: ExternalCodes): (r: Exception)
    ensures r.kind == e.kind && r.code == e.code
    ensures Caught(e, ext.createQuestionPrompt) ==> r.message == ext.createQuestionPrompt.defaultMessage
    ensures !Caught(e, ext.createQuestionPrompt) && Caught(e, ext.authUsr001) ==>
              r.message == ext.authUsr001.defaultMessage
    ensures !Caught(e, ext.createQuestionPrompt) && !Caught(e, ext.authUsr001) ==> r == e
  {
    if Caught(e, ext.createQuestionPrompt) then Thrown(AuthorizationFailed, ext.createQuestionPrompt)
    else Rewrite(e, ext.authUsr001)
  }

  /** getAllQuestions' catch block: its ATHR_002 prompt first, then AuthErrorCode.USR_001. */
  function RemapGetAllQuestions(e: Exception, ext: ExternalCodes): (r: Exception)
    ensures r.kind == e.kind && r.code == e.code
    ensures Caught(e, ext.allQuestionsPrompt) ==> r.message == ext.allQuestionsPrompt.defaultMessage
    ensures !Caught(e, ext.allQuestionsPrompt) && Caught(e, ext.authUsr001) ==>
              r.message == ext.authUsr001.defaultMessage
    ensures !Caught(e, ext.allQuestionsPrompt) && !Caught(e, ext.authUsr001) ==> r == e
  {
    if Caught(e, ext.allQuestionsPrompt) then Thrown(AuthorizationFailed, ext.allQuestionsPrompt)
    else Rewrite(e, ext.authUsr001)
  }

  /** deleteQuestion's catch block: only its own ATHR_002 prompt is rewritten. */
  function RemapDeleteQuestion(e: Exception, ext: ExternalCodes): (r: Exception)
    ensures r.kind == e.kind && r.code == e.code
    ensures Caught(e, ext.deleteQuestionPrompt) ==> r.message == ext.deleteQuestionPrompt.defaultMessage
    ensures !Caught(e, ext.deleteQuestionPrompt) ==> r == e
  {
    Rewrite(e, ext.deleteQuestionPrompt)
  }

  /** editQuestionContent's catch block: only its own ATHR_002 prompt is rewritten. */
  function RemapEditQuestion(e: Exception, ext: ExternalCodes): (r: Exception)
    ensures r.kind == e.kind && r.code == e.code
    ensures Caught(e, ext.editQuestionPrompt) ==> r.message == ext.editQuestionPrompt.defaultMessage
    ensures !Caught(e, ext.editQuestionPrompt) ==> r == e
  {
    Rewrite(e, ext.editQuestionPrompt)
  }

  /** getAllQuestionsByUser's catch block: only its own ATHR_002 prompt is rewritten; AuthErrorCode.USR_001 passes through. */
  function RemapGetAllQuestionsByUser(e: Exception, ext: ExternalCodes): (r: Exception)
    ensures r.kind == e.kind && r.code == e.code
    ensures Caught(e, ext.byUserPrompt) ==> r.message == ext.byUserPrompt.defaultMessage
    ensures !Caught(e, ext.byUserPrompt) ==> r == e
  {
    Rewrite(e, ext.byUserPrompt)
  }

  /**
   * No catch block alters the kind or the code of what it caught, and each is
   * stable: remapping a remapped failure changes nothing.
   */
  lemma RemapsKeepCodeAndAreStable(e: Exception, ext: ExternalCodes)
    ensures forall r :: r in {RemapCreateQuestion(e, ext), RemapDeleteQuestion(e, ext), RemapEditQuestion(e, ext),
                              RemapGetAllQuestions(e, ext), RemapGetAllQuestionsByUser(e, ext)} ==>
              r.kind == e.kind && r.code == e.code
    ensures RemapCreateQuestion(RemapCreateQuestion(e, ext), ext) == RemapCreateQuestion(e, ext)
    ensures RemapGetAllQuestions(RemapGetAllQuestions(e, ext), ext) == RemapGetAllQuestions(e, ext)
    ensures RemapDeleteQuestion(RemapDeleteQuestion(e, ext), ext) == RemapDeleteQuestion(e, ext)
    ensures RemapEditQuestion(RemapEditQuestion(e, ext), ext) == RemapEditQuestion(e, ext)
    ensures RemapGetAllQuestionsByUser(RemapGetAllQuestionsByUser(e, ext), ext) == RemapGetAllQuestionsByUser(e, ext)
  {
  }

  /**
   * createQuestion: after validation, a new question with the request's
   * content, owned by the session's user, dated now, under a fresh uuid, is
   * stored; 201 with that uuid.
   */
  method CreateQuestion(db: Database, validateUser: string -> Result<UserAuth, Exception>, ext: ExternalCodes,
                        authorization: string, content: string, now: Time, freshUuid: string, generatedId: int)
    returns (r: Result<Response<QuestionResponse>, Exception>)
    requires db.Valid()
    requires freshUuid !in db.questions.rows
    requires db.FreshQuestionId(generatedId)
    modifies db
    ensures db.Valid()
    ensures db.answers == old(db.answers) && db.users == old(db.users) && db.sessions == old(db.sessions)
    ensures var v := validateUser(authorization);
      && (v.Failure? ==> r == Failure(RemapCreateQuestion(v.error, ext)) && db.questions == old(db.questions))
      && (v.Success? ==>
            && r == Success(Response(QuestionResponse(freshUuid, "QUESTION CREATED"), CREATED))
            && freshUuid in db.questions.rows
            && db.questions.rows[freshUuid].owner == v.value.user
            && db.questions == old(db.questions).Insert(freshUuid,
                 Question(generatedId, freshUuid, content, now, v.value.user)))
  {
    var v := validateUser(authorization);
    if v.Failure? {
      return Failure(RemapCreateQuestion(v.error, ext));
    }
    var questionEntity := Question(0, freshUuid, content, now, v.value.user);
    var created := QuestionService.CreateQuestion(db, questionEntity, generatedId);
    r := Success(Response(QuestionResponse(created.uuid, "QUESTION CREATED"), CREATED));
  }

  /**
   * deleteQuestion: after validation, QuestionService.deleteQuestion with the
   * same token; 200 with the deleted question's uuid.
   */
  method DeleteQuestion(db: Database, validateUser: string -> Result<UserAuth, Exception>, ext: ExternalCodes,
                        questionId: string, authorization: string)
    returns (r: Result<Response<QuestionResponse>, Exception>)
    requires db.Valid()
    modifies db
    ensures db.Valid()
    ensures db.answers == old(db.answers) && db.users == old(db.users) && db.sessions == old(db.sessions)
    ensures var v := validateUser(authorization);
      && (v.Failure? ==> r == Failure(RemapDeleteQuestion(v.error, ext)) && db.questions == old(db.questions))
      && (v.Success? && questionId !in old(db.questions.rows) ==>
            r == Failure(Thrown(InvalidQuestion, ext.deleteQuestionMissing)) && db.questions == old(db.questions))
      && (v.Success? && questionId in old(db.questions.rows) ==>
            var check := QuestionService.ValidateUserForDelete(old(db.sessions), authorization,
                                                               old(db.questions.rows[questionId]), ext);
            && (check.Failure? ==> r == Failure(check.error) && db.questions == old(db.questions))
            && (check.Success? ==>
                  && r == Success(Response(QuestionResponse(questionId, "QUESTION DELETED"), OK))
                  && db.questions == old(db.questions).Delete(questionId)))
  {
    var v := validateUser(authorization);
    if v.Failure? {
      return Failure(RemapDeleteQuestion(v.error, ext));
    }
    var deleted := QuestionService.DeleteQuestion(db, questionId, authorization, ext);
    match deleted
    case Failure(e) =>
      r := Failure(e);
    case Success(q) =>
      r := Success(Response(QuestionResponse(q.uuid, "QUESTION DELETED"), OK));
  }

  /**
   * editQuestionContent: after validation, QuestionService.editQuestion with
   * the same token; 200 with the question's uuid.
   */
  method EditQuestionContent(db: Database, validateUser: string -> Result<UserAuth, Exception>, ext: ExternalCodes,
                             questionId: string, authorization: string, content: string, now: Time)
    returns (r: Result<Response<QuestionResponse>, Exception>)
    requires db.Valid()
    modifies db
    ensures db.Valid()
    ensures db.answers == old(db.answers) && db.users == old(db.users) && db.sessions == old(db.sessions)
    ensures var v := validateUser(authorization);
      && (v.Failure? ==> r == Failure(RemapEditQuestion(v.error, ext)) && db.questions == old(db.questions))
      && (v.Success? && questionId !in old(db.questions.rows) ==>
            r == Failure(Thrown(InvalidQuestion, ext.editQuestionMissing)) && db.questions == old(db.questions))
      && (v.Success? && questionId in old(db.questions.rows) ==>
            var q := old(db.questions.rows[questionId]);
            var check := QuestionService.ValidateUserForEdit(old(db.sessions), authorization, q, ext);
            && (check.Failure? ==> r == Failure(check.error) && db.questions == old(db.questions))
            && (check.Success? ==>
                  && r == Success(Response(QuestionResponse(questionId, "QUESTION EDITED"), OK))
                  && db.questions.rows == old(db.questions.rows)[questionId := q.(content := content, date := now)]))
  {
    var v := validateUser(authorization);
    if v.Failure? {
      return Failure(RemapEditQuestion(v.error, ext));
    }
    var edited := QuestionService.EditQuestion(db, questionId, content, authorization, now, ext);
    match edited
    case Failure(e) =>
      r := Failure(e);
    case Success(q) =>
      r := Success(Response(QuestionResponse(q.uuid, "QUESTION EDITED"), OK));
  }

  /** The response entries of a question list: uuid and content, one per question, in order. */
  method ToDetails(questions: seq<Question>) returns (details: seq<QuestionDetailsResponse>)
    ensures |details| == |questions|
    ensures forall i :: 0 <= i < |questions| ==>
              details[i] == QuestionDetailsResponse(questions[i].uuid, questions[i].content)
  {
    details := [];
    for i := 0 to |questions|
      invariant |details| == i
      invariant forall j :: 0 <= j < i ==> details[j] == QuestionDetailsResponse(questions[j].uuid, questions[j].content)
    {
      var question := questions[i];
      details := details + [QuestionDetailsResponse(question.uuid, question.content)];
    }
  }

  /** getAllQuestions: after validation, every stored question as (uuid, content); 200. */
  method GetAllQuestions(db: Database, validateUser: string -> Result<UserAuth, Exception>, ext: ExternalCodes,
                         authorization: string)
    returns (r: Result<Response<seq<QuestionDetailsResponse>>, Exception>)
    ensures var v := validateUser(authorization);
      && (v.Failure? ==> r == Failure(RemapGetAllQuestions(v.error, ext)))
      && (v.Success? ==>
            var questions := QuestionService.GetAllQuestions(db.questions);
            && r.Success? && r.value.status == OK
            && |r.value.body| == |questions|
            && forall i :: 0 <= i < |questions| ==>
                 r.value.body[i] == QuestionDetailsResponse(questions[i].uuid, questions[i].content))
  {
    var v := validateUser(authorization);
    if v.Failure? {
      return Failure(RemapGetAllQuestions(v.error, ext));
    }
    var questions := QuestionService.GetAllQuestions(db.questions);
    var details := ToDetails(questions);
    r := Success(Response(details, OK));
  }

  /**
   * getAllQuestionsByUser: after validation, QuestionService.getAllQuestionsByUser;
   * 200 with that user's questions as (uuid, content).
   */
  method GetAllQuestionsByUser(db: Database, validateUser: string -> Result<UserAuth, Exception>,
                               ext: ExternalCodes, userId: string, authorization: string)
    returns (r: Result<Response<seq<QuestionDetailsResponse>>, Exception>)
    ensures var v := validateUser(authorization);
      && (v.Failure? ==> r == Failure(RemapGetAllQuestionsByUser(v.error, ext)))
      && (v.Success? ==>
            match QuestionService.GetAllQuestionsByUser(db.users, db.questions, userId, ext)
            case Failure(e) => r == Failure(e)
            case Success(questions) =>
              && r.Success? && r.value.status == OK
              && |r.value.body| == |questions|
              && forall i :: 0 <= i < |questions| ==>
                   r.value.body[i] == QuestionDetailsResponse(questions[i].uuid, questions[i].content))
  {
    var v := validateUser(authorization);
    if v.Failure? {
      return Failure(RemapGetAllQuestionsByUser(v.error, ext));
    }
    var listed := QuestionService.GetAllQuestionsByUser(db.users, db.questions, userId, ext);
    if listed.Failure? {
      return Failure(listed.error);
    }
    var details := ToDetails(listed.value);
    r := Success(Response(details, OK));
  }
}
