/**
 * com.upgrad.quora.service.business.AnswerService: existence checks and the
 * ownership rules for answers, and the answer store operations.
 */
module AnswerService {
  import opened Wrappers
  import opened ErrorCodes
  import opened Store
  import opened Entities
  import AccessPolicy
  import AnswerCreationErrorCode
  import AnswerEditErrorCode
  import AnswerDeleteErrorCode
  import AnswerGetAllErrorCode

  /** The guard of editAnswer: the stored answer's owner is the caller. */
  predicate MayEditAnswer(stored: Answer, caller: User) {
    stored.owner.uuid == caller.uuid
  }

  /** The guard of deleteAnswer as the code writes it: owner AND administrator. */
  predicate MayDeleteAnswer(stored: Answer, caller: User, adminRole: string) {
    stored.owner.uuid == caller.uuid && caller.role == adminRole
  }

  /**
   * addAnswer: an unknown question uuid fails with
   * AnswerCreationErrorCode.Constant.QUES_001 and stores nothing; otherwise the answer
   * gets a fresh uuid, the stored question in place of the uuid-only
   * placeholder, the current date, and is persisted.
   */
  method AddAnswer(db: Database, content: string, owner: User, questionUuid: string,
                   freshUuid: string, now: Time, generatedId: int)
    returns (r: Result<Answer, Exception>)
    requires db.Valid()
    requires freshUuid !in db.answers.rows
    modifies db
    ensures db.Valid()
    ensures db.questions == old(db.questions) && db.users == old(db.users) && db.sessions == old(db.sessions)
    ensures questionUuid !in old(db.questions.rows) ==>
              && r == Failure(Thrown(InvalidQuestion, AnswerCreationErrorCode.Constant.QUES_001.Entry()))
              && db.answers == old(db.answers)
    ensures questionUuid in old(db.questions.rows) ==>
              && r.Success?
              && r.value.uuid == freshUuid
              && r.value.question == old(db.questions.rows[questionUuid])
              && r.value.date == now
              && r.value.answer == content && r.value.owner == owner && r.value.id == generatedId
              && db.answers == old(db.answers).Insert(freshUuid, r.value)
  {
    match db.questions.Get(questionUuid)
    case None =>
      r := Failure(Thrown(InvalidQuestion, AnswerCreationErrorCode.Constant.QUES_001.Entry()));
    case Some(question) =>
      var answer := Answer(generatedId, freshUuid, content, now, owner, question);
      db.answers := db.answers.Insert(freshUuid, answer);
      r := Success(answer);
  }

  /**
   * editAnswer: an unknown answer uuid fails with AnswerEditErrorCode.Constant.ANS_001
   * before any ownership check; a caller who does not own the stored answer
   * fails with AnswerEditErrorCode.Constant.ATHR_003 whatever their role; otherwise the
   * answer keeps its primary key and question, takes the new content and date,
   * and is merged over the stored row.
   */
  method EditAnswer(db: Database, answerUuid: string, content: string, caller: User, now: Time)
    returns (r: Result<Answer, Exception>)
    requires db.Valid()
    requires caller.uuid in db.users  // userDao.getUserById must find the caller
    modifies db
    ensures db.Valid()
    ensures db.questions == old(db.questions) && db.users == old(db.users) && db.sessions == old(db.sessions)
    ensures answerUuid !in old(db.answers.rows) ==>
              r == Failure(Thrown(AnswerNotFound, AnswerEditErrorCode.Constant.ANS_001.Entry())) && db.answers == old(db.answers)
    ensures answerUuid in old(db.answers.rows) ==>
              var stored := old(db.answers.rows[answerUuid]);
              && (stored.owner.uuid != caller.uuid ==>
                    && r == Failure(Thrown(AuthorizationFailed, AnswerEditErrorCode.Constant.ATHR_003.Entry()))
                    && db.answers == old(db.answers))
              && (stored.owner.uuid == caller.uuid ==>
                    && r.Success?
                    && r.value.id == stored.id && r.value.question == stored.question
                    && r.value.uuid == answerUuid && r.value.owner == caller
                    && r.value.answer == content && r.value.date == now
                    && db.answers == old(db.answers).Update(answerUuid, r.value))
  {
    match db.answers.Get(answerUuid)
    case None =>
      r := Failure(Thrown(AnswerNotFound, AnswerEditErrorCode.Constant.ANS_001.Entry()));
    case Some(stored) =>
      var user := db.users[caller.uuid];
      if !MayEditAnswer(stored, user) {
        r := Failure(Thrown(AuthorizationFailed, AnswerEditErrorCode.Constant.ATHR_003.Entry()));
        return;
      }
      var edited := Answer(stored.id, answerUuid, content, now, caller, stored.question);
      db.answers := db.answers.Update(answerUuid, edited);
      r := Success(edited);
  }

  /**
   * deleteAnswer: an unknown answer uuid fails with ANS-001 (the code reuses
   * AnswerEditErrorCode.Constant.ANS_001); the stored answer is removed only when the
   * caller both owns it and has the ADMIN role, otherwise
   * AnswerDeleteErrorCode.Constant.ATHR_003. The owner lookup the code performs
   * before the check has no effect on the outcome and is not modelled.
   */
  method DeleteAnswer(db: Database, answerId: string, user: User, ext: ExternalCodes)
    returns (r: Result<Answer, Exception>)
    requires db.Valid()
    modifies db
    ensures db.Valid()
    ensures db.questions == old(db.questions) && db.users == old(db.users) && db.sessions == old(db.sessions)
    ensures answerId !in old(db.answers.rows) ==>
              r == Failure(Thrown(AnswerNotFound, AnswerEditErrorCode.Constant.ANS_001.Entry())) && db.answers == old(db.answers)
    ensures answerId in old(db.answers.rows) ==>
              var stored := old(db.answers.rows[answerId]);
              && (stored.owner.uuid == user.uuid && user.role == ext.adminRole ==>
                    r == Success(stored) && db.answers == old(db.answers).Delete(answerId))
              && (stored.owner.uuid != user.uuid || user.role != ext.adminRole ==>
                    && r == Failure(Thrown(AuthorizationFailed, AnswerDeleteErrorCode.Constant.ATHR_003.Entry()))
                    && db.answers == old(db.answers))
  {
    match db.answers.Get(answerId)
    case None =>
      r := Failure(Thrown(AnswerNotFound, AnswerEditErrorCode.Constant.ANS_001.Entry()));
    case Some(stored) =>
      if !MayDeleteAnswer(stored, user, ext.adminRole) {
        r := Failure(Thrown(AuthorizationFailed, AnswerDeleteErrorCode.Constant.ATHR_003.Entry()));
        return;
      }
      db.answers := db.answers.Delete(answerId);
      r := Success(stored);
  }

  /**
   * The answers as loaded together with their question: each now refers to
   * `q` and is otherwise the answer it was.
   */
  function Relink(answers: seq<Answer>, q: Question): (r: seq<Answer>)
    ensures |r| == |answers|
    ensures forall i :: 0 <= i < |r| ==> r[i].question == q && r[i].(question := answers[i].question) == answers[i]
  {
    seq(|answers|, i requires 0 <= i < |answers| => answers[i].(question := q))
  }

  /**
   * getAllAnswer: an unknown question uuid fails with
   * AnswerGetAllErrorCode.Constant.QUES_001; otherwise the stored answers whose
   * question is that question (matched on its primary key), all of them and
   * only them, each once, each carrying the stored question.
   */
  function GetAllAnswer(questions: Table<Question>, answers: Table<Answer>, questionUuid: string)
    : (r: Result<seq<Answer>, Exception>)
    ensures r.Failure? <==> questionUuid !in questions.rows
    ensures r.Failure? ==> r.error == Thrown(InvalidQuestion, AnswerGetAllErrorCode.Constant.QUES_001.Entry())
    ensures r.Success? ==>
              var q := questions.rows[questionUuid];
              forall a :: a in r.value ==>
                && a.question == q
                && exists k :: k in answers.rows && answers.rows[k].question.id == q.id
                                && answers.rows[k].(question := q) == a
    ensures r.Success? && answers.Valid() ==>
              var q := questions.rows[questionUuid];
              forall k :: k in answers.rows && answers.rows[k].question.id == q.id ==>
                answers.rows[k].(question := q) in r.value
    ensures r.Success? && AnswersLinked(questions, answers) ==>
              forall a :: a in r.value ==>
                exists k :: k in answers.rows && answers.rows[k].question.uuid == questionUuid
                            && answers.rows[k].(question := a.question) == a
    ensures r.Success? && answers.Valid() && AnswersFiled(answers) ==>
              forall i, j :: 0 <= i < j < |r.value| ==> r.value[i].uuid != r.value[j].uuid
  {
    match questions.Get(questionUuid)
    case None => Failure(Thrown(InvalidQuestion, AnswerGetAllErrorCode.Constant.QUES_001.Entry()))
    case Some(q) =>
      var selected := answers.Select((a: Answer) => a.question.id == q.id);
      RelinkedAreStored(answers, q, selected);
      RelinkedBelongToQuestion(questions, answers, questionUuid, selected);
      RelinkedOnce(answers, q, selected);
      Success(Relink(selected, q))
  }

  /** Every relinked answer is a stored answer of `q`, now carrying `q`. */
  lemma RelinkedAreStored(answers: Table<Answer>, q: Question, selected: seq<Answer>)
    requires forall x :: x in selected ==> x.question.id == q.id && x in answers.rows.Values
    ensures forall a :: a in Relink(selected, q) ==>
              && a.question == q
              && exists k :: k in answers.rows && answers.rows[k].question.id == q.id
                             && answers.rows[k].(question := q) == a
  {
  }

  /**
   * When answers point at the question they were posted to, every answer
   * listed for the question stored under `questionUuid` was posted to it.
   */
  lemma RelinkedBelongToQuestion(questions: Table<Question>, answers: Table<Answer>, questionUuid: string,
                                 selected: seq<Answer>)
    requires questionUuid in questions.rows
    requires forall x :: x in selected ==> x.question.id == questions.rows[questionUuid].id && x in answers.rows.Values
    ensures AnswersLinked(questions, answers) ==>
              forall a :: a in Relink(selected, questions.rows[questionUuid]) ==>
                exists k :: k in answers.rows && answers.rows[k].question.uuid == questionUuid
                            && answers.rows[k].(question := a.question) == a
  {
  }

  /** In a well-formed answer table, a duplicate-free selection lists each answer uuid once. */
  lemma RelinkedOnce(answers: Table<Answer>, q: Question, selected: seq<Answer>)
    requires forall x :: x in selected ==> x in answers.rows.Values
    requires answers.Valid() && answers.Injective() ==> NoDuplicates(selected)
    ensures answers.Valid() && AnswersFiled(answers) ==>
              var linked := Relink(selected, q);
              forall i, j :: 0 <= i < j < |linked| ==> linked[i].uuid != linked[j].uuid
  {
    if answers.Valid() && AnswersFiled(answers) {
      answers.FiledIsInjective((a: Answer) => a.uuid);
      answers.DistinctRowsDistinctKeys((a: Answer) => a.uuid, selected);
    }
  }

  /** The edit guard of the code is exactly the owner-only rule its ATHR_003 message announces. */
  lemma EditAnswerFollowsPolicy(stored: Answer, caller: User, adminRole: string)
    ensures MayEditAnswer(stored, caller) <==>
              AccessPolicy.Permits(AccessPolicy.Edit, caller, stored.owner, adminRole)
  {
  }

  /**
   * The delete guard of the code is stricter than the "owner or admin" rule
   * its own ATHR_003 message announces: whatever it allows, that rule allows.
   */
  lemma DeleteAnswerStricterThanPolicy(stored: Answer, caller: User, adminRole: string)
    ensures MayDeleteAnswer(stored, caller, adminRole) ==>
              AccessPolicy.Permits(AccessPolicy.Delete, caller, stored.owner, adminRole)
    ensures MayDeleteAnswer(stored, caller, adminRole) ==> MayEditAnswer(stored, caller)
  {
  }

  /** An owner without the ADMIN role may not delete their own answer, which the ATHR_003 message allows. */
  lemma OwnerWithoutAdminCannotDelete(stored: Answer, caller: User, adminRole: string)
    requires stored.owner.uuid == caller.uuid && caller.role != adminRole
    ensures AccessPolicy.Permits(AccessPolicy.Delete, caller, stored.owner, adminRole)
    ensures !MayDeleteAnswer(stored, caller, adminRole)
  {
  }

  /** An administrator may not delete another user's answer, which the ATHR_003 message allows. */
  lemma AdminCannotDeleteOthersAnswer(stored: Answer, caller: User, adminRole: string)
    requires stored.owner.uuid != caller.uuid && caller.role == adminRole
    ensures AccessPolicy.Permits(AccessPolicy.Delete, caller, stored.owner, adminRole)
    ensures !MayDeleteAnswer(stored, caller, adminRole)
  {
  }

  /**
   * deleteAnswer reports a missing answer with AnswerEditErrorCode.Constant.ANS_001;
   * AnswerDeleteErrorCode.Constant.ANS_001 carries the same code and message, so the
   * caller cannot tell the difference.
   */
  lemma MissingAnswerCodeShared()
    ensures AnswerEditErrorCode.Constant.ANS_001.Entry() == AnswerDeleteErrorCode.Constant.ANS_001.Entry()
  {
  }
}
