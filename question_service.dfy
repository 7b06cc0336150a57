/**
 * com.upgrad.quora.service.business.QuestionService: session and ownership
 * checks for question edit and delete, and the question store operations.
 */
module QuestionService {
  import opened Wrappers
  import opened ErrorCodes
  import opened Store
  import opened Entities
  import AccessPolicy

  /**
   * validateUserForDelete: an unknown token fails with AuthErrorCode.ATHR_001,
   * a signed-out session with AuthErrorCode.ATHR_002, and a live session of a
   * user who is neither ADMIN nor the question's owner with
   * QuestionDeleteErrorCode.ATHR_003; otherwise the token's own session.
   */
  function ValidateUserForDelete(sessions: map<string, UserAuth>, authorization: string,
                                 question: Question, ext: ExternalCodes): (r: Result<UserAuth, Exception>)
    ensures authorization !in sessions ==> r == Failure(Thrown(AuthorizationFailed, ext.authAthr001))
    ensures authorization in sessions && sessions[authorization].logoutAt.Some? ==>
              r == Failure(Thrown(AuthorizationFailed, ext.authAthr002))
    ensures r.Success? <==>
              && authorization in sessions
              && sessions[authorization].logoutAt.None?
              && (sessions[authorization].user.role == ext.adminRole
                  || sessions[authorization].user.uuid == question.owner.uuid)
    ensures r.Success? ==> r.value == sessions[authorization]
    ensures r.Failure? && authorization in sessions && sessions[authorization].logoutAt.None? ==>
              r == Failure(Thrown(AuthorizationFailed, ext.deleteQuestionDenied))
  {
    if authorization !in sessions then Failure(Thrown(AuthorizationFailed, ext.authAthr001))
    else
      var auth := sessions[authorization];
      if auth.logoutAt.Some? then Failure(Thrown(AuthorizationFailed, ext.authAthr002))
      else if auth.user.role != ext.adminRole && auth.user.uuid != question.owner.uuid then
        Failure(Thrown(AuthorizationFailed, ext.deleteQuestionDenied))
      else Success(auth)
  }

  /**
   * validateUserForEdit: the same session checks, then only the owner of the
   * question passes; the ADMIN role gives no override. Denial is
   * QuestionEditErrorCode.ATHR_003.
   */
  function ValidateUserForEdit(sessions: map<string, UserAuth>, authorization: string,
                               question: Question, ext: ExternalCodes): (r: Result<UserAuth, Exception>)
    ensures authorization !in sessions ==> r == Failure(Thrown(AuthorizationFailed, ext.authAthr001))
    ensures authorization in sessions && sessions[authorization].logoutAt.Some? ==>
              r == Failure(Thrown(AuthorizationFailed, ext.authAthr002))
    ensures r.Success? <==>
              && authorization in sessions
              && sessions[authorization].logoutAt.None?
              && sessions[authorization].user.uuid == question.owner.uuid
    ensures r.Success? ==> r.value == sessions[authorization]
    ensures r.Failure? && authorization in sessions && sessions[authorization].logoutAt.None? ==>
              r == Failure(Thrown(AuthorizationFailed, ext.editQuestionDenied))
  {
    if authorization !in sessions then Failure(Thrown(AuthorizationFailed, ext.authAthr001))
    else
      var auth := sessions[authorization];
      if auth.logoutAt.Some? then Failure(Thrown(AuthorizationFailed, ext.authAthr002))
      else if auth.user.uuid != question.owner.uuid then
        Failure(Thrown(AuthorizationFailed, ext.editQuestionDenied))
      else Success(auth)
  }

  /** Both validations agree with the reference token states and owner/admin rules. */
  lemma ValidationFollowsPolicy(sessions: map<string, UserAuth>, authorization: string,
                                question: Question, ext: ExternalCodes)
    ensures var s := AccessPolicy.Classify(sessions, authorization);
      && (ValidateUserForDelete(sessions, authorization, question, ext).Success? <==>
            s.Live? && AccessPolicy.Permits(AccessPolicy.Delete, s.auth.user, question.owner, ext.adminRole))
      && (ValidateUserForEdit(sessions, authorization, question, ext).Success? <==>
            s.Live? && AccessPolicy.Permits(AccessPolicy.Edit, s.auth.user, question.owner, ext.adminRole))
  {
  }

  /**
   * A live administrator may delete any question but edit only their own:
   * delete and edit validation part ways exactly on admins who are not owners.
   */
  lemma AdminDeletesButDoesNotEdit(sessions: map<string, UserAuth>, authorization: string,
                                   question: Question, ext: ExternalCodes)
    requires authorization in sessions && sessions[authorization].logoutAt.None?
    ensures ValidateUserForEdit(sessions, authorization, question, ext).Success? ==>
              ValidateUserForDelete(sessions, authorization, question, ext).Success?
    ensures (ValidateUserForDelete(sessions, authorization, question, ext).Success? &&
             ValidateUserForEdit(sessions, authorization, question, ext).Failure?) <==>
            (sessions[authorization].user.role == ext.adminRole &&
             sessions[authorization].user.uuid != question.owner.uuid)
  {
  }

  /** createQuestion: persists the question; the store assigns its primary key. */
  method CreateQuestion(db: Database, question: Question, generatedId: int) returns (r: Question)
    requires db.Valid()
    requires question.uuid !in db.questions.rows
    requires db.FreshQuestionId(generatedId)
    modifies db
    ensures db.Valid()
    ensures r == question.(id := generatedId)
    ensures db.questions == old(db.questions).Insert(question.uuid, r)
    ensures db.answers == old(db.answers) && db.users == old(db.users) && db.sessions == old(db.sessions)
  {
    r := question.(id := generatedId);
    db.questions := db.questions.Insert(question.uuid, r);
  }

  /**
   * deleteQuestion: an unknown question id fails with
   * QuestionDeleteErrorCode.QUES_001 before any token check; a known one is
   * removed only when validateUserForDelete passes. Only the question table
   * can change.
   */
  method DeleteQuestion(db: Database, questionId: string, authorization: string, ext: ExternalCodes)
    returns (r: Result<Question, Exception>)
    requires db.Valid()
    modifies db
    ensures db.Valid()
    ensures db.answers == old(db.answers) && db.users == old(db.users) && db.sessions == old(db.sessions)
    ensures questionId !in old(db.questions.rows) ==>
              r == Failure(Thrown(InvalidQuestion, ext.deleteQuestionMissing)) && db.questions == old(db.questions)
    ensures questionId in old(db.questions.rows) ==>
              var q := old(db.questions.rows[questionId]);
              var v := ValidateUserForDelete(old(db.sessions), authorization, q, ext);
              && (v.Failure? ==> r == Failure(v.error) && db.questions == old(db.questions))
              && (v.Success? ==> r == Success(q) && db.questions == old(db.questions).Delete(questionId))
    ensures r.Failure? ==> db.questions == old(db.questions)
  {
    match db.questions.Get(questionId)
    case None =>
      r := Failure(Thrown(InvalidQuestion, ext.deleteQuestionMissing));
    case Some(question) =>
      var v := ValidateUserForDelete(db.sessions, authorization, question, ext);
      if v.Failure? {
        r := Failure(v.error);
        return;
      }
      db.questions := db.questions.Delete(questionId);
      r := Success(question);
  }

  /**
   * editQuestion: an unknown id fails with QuestionEditErrorCode.QUES_001;
   * otherwise validateUserForEdit runs before the content and date are set, so
   * a denied edit leaves the stored question as it was. A successful edit
   * changes the content and the date and nothing else.
   */
  method EditQuestion(db: Database, questionId: string, content: string, authorization: string,
                      now: Time, ext: ExternalCodes)
    returns (r: Result<Question, Exception>)
    requires db.Valid()
    modifies db
    ensures db.Valid()
    ensures db.answers == old(db.answers) && db.users == old(db.users) && db.sessions == old(db.sessions)
    ensures db.questions.rows.Keys == old(db.questions.rows.Keys) && db.questions.order == old(db.questions.order)
    ensures questionId !in old(db.questions.rows) ==>
              r == Failure(Thrown(InvalidQuestion, ext.editQuestionMissing)) && db.questions == old(db.questions)
    ensures questionId in old(db.questions.rows) ==>
              var q := old(db.questions.rows[questionId]);
              var v := ValidateUserForEdit(old(db.sessions), authorization, q, ext);
              && (v.Failure? ==> r == Failure(v.error) && db.questions == old(db.questions))
              && (v.Success? ==>
                    && r.Success?
                    && r.value.id == q.id && r.value.uuid == q.uuid && r.value.owner == q.owner
                    && r.value.content == content && r.value.date == now
                    && db.questions.rows == old(db.questions.rows)[questionId := r.value])
  {
    match db.questions.Get(questionId)
    case None =>
      r := Failure(Thrown(InvalidQuestion, ext.editQuestionMissing));
    case Some(question) =>
      var v := ValidateUserForEdit(db.sessions, authorization, question, ext);
      if v.Failure? {
        r := Failure(v.error);
        return;
      }
      var edited := question.(content := content, date := now);
      db.questions := db.questions.Update(questionId, edited);
      r := Success(edited);
  }

  /** getAllQuestions: every stored question, each once, in table order. */
  function GetAllQuestions(questions: Table<Question>): (r: seq<Question>)
    ensures forall q :: q in r ==> q in questions.rows.Values
    ensures questions.Valid() ==> forall k :: k in questions.rows ==> questions.rows[k] in r
    ensures questions.Valid() && QuestionsFiled(questions) ==>
              forall i, j :: 0 <= i < j < |r| ==> r[i].uuid != r[j].uuid
  {
    var r := questions.Select((q: Question) => true);
    assert questions.Valid() && QuestionsFiled(questions) ==>
             forall i, j :: 0 <= i < j < |r| ==> r[i].uuid != r[j].uuid
    by {
      if questions.Valid() && QuestionsFiled(questions) {
        questions.FiledIsInjective((q: Question) => q.uuid);
        questions.DistinctRowsDistinctKeys((q: Question) => q.uuid, r);
      }
    }
    r
  }

  /**
   * getAllQuestionsByUser: an unknown user id fails with
   * GellAllQuestionByUserErrorCode.USR_001; otherwise the questions that user
   * owns, all of them and only them, each once.
   */
  function GetAllQuestionsByUser(users: map<string, User>, questions: Table<Question>,
                                 userId: string, ext: ExternalCodes): (r: Result<seq<Question>, Exception>)
    ensures r.Failure? <==> userId !in users
    ensures r.Failure? ==> r.error == Thrown(UserNotFound, ext.byUserUnknownUser)
    ensures r.Success? ==> forall q :: q in r.value ==> q.owner.uuid == users[userId].uuid && q in questions.rows.Values
    ensures r.Success? && questions.Valid() ==>
              forall k :: k in questions.rows && questions.rows[k].owner.uuid == users[userId].uuid ==>
                questions.rows[k] in r.value
    ensures r.Success? && questions.Valid() && QuestionsFiled(questions) ==>
              forall i, j :: 0 <= i < j < |r.value| ==> r.value[i].uuid != r.value[j].uuid
  {
    if userId in users then
      var user := users[userId];
      var listed := questions.Select((q: Question) => q.owner.uuid == user.uuid);
      assert questions.Valid() && QuestionsFiled(questions) ==>
               forall i, j :: 0 <= i < j < |listed| ==> listed[i].uuid != listed[j].uuid
      by {
        if questions.Valid() && QuestionsFiled(questions) {
          questions.FiledIsInjective((q: Question) => q.uuid);
          questions.DistinctRowsDistinctKeys((q: Question) => q.uuid, listed);
        }
      }
      Success(listed)
    else
      Failure(Thrown(UserNotFound, ext.byUserUnknownUser))
  }
}
