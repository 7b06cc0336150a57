/**
 * The entities of the quora service (UserEntity, UserAuthEntity,
 * QuestionEntity, AnswerEntity) as values, and the database the DAOs read and
 * write.
 */
module Entities {
  import opened Wrappers
  import opened Store

  /** A ZonedDateTime; only equality and presence matter to the core. */
  type Time = int

  /** A user account; `role` is compared with the name of UserRole.ADMIN. */
  datatype User = User(uuid: string, role: string)

  /** A session: the access token, its user, and a logout time once signed out. */
  datatype UserAuth = UserAuth(accessToken: string, user: User, loginAt: Time, logoutAt: Option<Time>)

  /** A question; `id` is the generated primary key, `uuid` the public identifier. */
  datatype Question = Question(id: int, uuid: string, content: string, date: Time, owner: User)

  /** An answer and the question it belongs to. */
  datatype Answer = Answer(id: int, uuid: string, answer: string, date: Time, owner: User, question: Question)

  /** Every question is filed under its own uuid. */
  ghost predicate QuestionsFiled(questions: Table<Question>) {
    forall k :: k in questions.rows ==> questions.rows[k].uuid == k
  }

  /** Every answer is filed under its own uuid. */
  ghost predicate AnswersFiled(answers: Table<Answer>) {
    forall k :: k in answers.rows ==> answers.rows[k].uuid == k
  }

  /** No two stored questions share a primary key: the database never hands one out twice. */
  ghost predicate QuestionIdsUnique(questions: Table<Question>) {
    forall k1, k2 ::
      (k1 in questions.rows && k2 in questions.rows && questions.rows[k1].id == questions.rows[k2].id) ==> k1 == k2
  }

  /**
   * An answer's foreign key names the question it was posted to: if it
   * matches the primary key of a stored question, that question is the one
   * the answer refers to.
   */
  ghost predicate AnswersLinked(questions: Table<Question>, answers: Table<Answer>) {
    forall a, k ::
      (a in answers.rows && k in questions.rows && answers.rows[a].question.id == questions.rows[k].id) ==>
        answers.rows[a].question.uuid == k
  }

  /** The database behind QuestionDao, AnswerDao, UserDao and UserAuthDao. */
  class Database {
    var questions: Table<Question>        // QuestionDao, by question uuid
    var answers: Table<Answer>            // AnswerDao, by answer uuid
    var users: map<string, User>          // UserDao.getUserById, by user uuid
    var sessions: map<string, UserAuth>   // UserAuthDao.getUserAuthByAccessToken, by token

    /**
     * Tables are well formed, every row is filed under its own uuid, question
     * primary keys are unique and answers point at the question they were posted to.
     */
    ghost predicate Valid()
      reads this
    {
      && questions.Valid()
      && answers.Valid()
      && QuestionsFiled(questions)
      && AnswersFiled(answers)
      && QuestionIdsUnique(questions)
      && AnswersLinked(questions, answers)
      && (forall k :: k in users ==> users[k].uuid == k)
    }

    /** A primary key the database may hand to a new question: no stored question or answer uses it. */
    ghost predicate FreshQuestionId(id: int)
      reads this
    {
      && (forall k :: k in questions.rows ==> questions.rows[k].id != id)
      && (forall k :: k in answers.rows ==> answers.rows[k].question.id != id)
    }

    constructor (users: map<string, User>, sessions: map<string, UserAuth>)
      requires forall k :: k in users ==> users[k].uuid == k
      ensures Valid()
      ensures questions.rows == map[] && answers.rows == map[]
      ensures this.users == users && this.sessions == sessions
    {
      questions := Table(map[], []);
      answers := Table(map[], []);
      this.users := users;
      this.sessions := sessions;
    }
  }
}
