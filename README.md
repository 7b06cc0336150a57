# Quora back end: access control for questions and answers

This project models, in Dafny, the part of the Quora-style REST back end that
decides who may create, edit, delete and list questions and answers, and what
the service reports when it refuses.

- **Services.** `QuestionService` and `AnswerService` hold the business rules.
  A token must belong to a live session. Editing a question or an answer is
  reserved to its owner. Deleting a question is allowed to its owner or to an
  admin. Each refusal raises an exception carrying a code and a message.
- **Controllers.** `QuestionController` and `AnswerController` validate the
  `authorization` header through the shared user validator. Each question
  endpoint rewrites a failure whose code equals the code of its own ATHR_002
  prompt constant: it keeps the code and takes that constant's message (create
  and list-all also rewrite `USR-001` this way).
  `AnswerController.checkForAuthorization` rewrites the failure carrying the
  code of `AuthErrorCode.ATHR_002_RELOGIN_PROMPT` into the endpoint's own code
  and message. Then they call the service and build the response body with
  its status.
- **Error-code enums.** The four answer error-code enums carry their literal
  (code, message) pairs and a lookup table from code to constant.

Exceptions become the `Failure` arm of a `Result`. The database becomes a
`Database` object holding two tables (questions, answers) and two maps (users,
sessions); each table maps a row's uuid to the row and records the row order
that list queries return. Service and controller operations that write the
database are methods that modify it; validations, error-message rewrites and
service queries are functions; controller list endpoints are methods whose
loops build the response.

The code is modelled as written. Three of its behaviours are worth knowing:

- `AnswerService.deleteAnswer` lets a caller delete an answer only when they
  are its owner **and** have the admin role
  (quora-service/src/main/java/com/upgrad/quora/service/business/AnswerService.java:93).
  The refusal message it raises, `AnswerDeleteErrorCode.ATHR_003`
  (quora-service/src/main/java/com/upgrad/quora/service/common/AnswerDeleteErrorCode.java:20),
  announces owner **or** admin.
  `AccessPolicy.Permits` states that announced rule, and
  `AnswerService.OwnerWithoutAdminCannotDelete` and
  `AnswerService.AdminCannotDeleteOthersAnswer` show the two cases where the
  code refuses what the message promises.
- The list-answers endpoint re-words a re-login failure with the
  delete-answer message ("...to delete an answer"), not with its own
  list-answers message. `AnswerController.EndpointContexts` states it.
- Editing an answer answers 201 (Created)
  (quora-api/src/main/java/com/upgrad/quora/api/controller/AnswerController.java:85).

Apart from the rewrites above (each question endpoint's own prompt code,
`USR-001` in the create and list-all question endpoints, and the re-login code
in the answer endpoints), every exception passes through the controllers
unchanged.

## Model

| member | source | states |
|---|---|---|
| ErrorCodes.BuildLookup | quora-service/src/main/java/com/upgrad/quora/service/common/AnswerDeleteErrorCode.java:29-36 | the lookup table filled from the constants has exactly their codes as keys, and every key maps to one of the constants that carries that code |
| ErrorCodes.LookupInverts | quora-service/src/main/java/com/upgrad/quora/service/common/AnswerDeleteErrorCode.java:29-36 | when the codes are distinct, looking up a constant's code gives back that constant |
| AnswerDeleteErrorCode.LookupTable | quora-service/src/main/java/com/upgrad/quora/service/common/AnswerDeleteErrorCode.java:13-36 | the table is exactly {"ATHR-002", "ATHR-003", "ANS-001"} mapped to their constants, and every constant is found under its own code |
| AnswerEditErrorCode.LookupTable | quora-service/src/main/java/com/upgrad/quora/service/common/AnswerEditErrorCode.java:13-36 | the table is exactly {"ATHR-002", "ATHR-003", "ANS-001"} mapped to their constants, and every constant is found under its own code |
| AnswerCreationErrorCode.LookupTable | quora-service/src/main/java/com/upgrad/quora/service/common/AnswerCreationErrorCode.java:13-29 | the table is exactly {"QUES-001", "ATHR-002"} mapped to their constants, and every constant is found under its own code |
| AnswerGetAllErrorCode.LookupTable | quora-service/src/main/java/com/upgrad/quora/service/common/AnswerGetAllErrorCode.java:13-28 | the table is exactly {"QUES-001", "ATHR-002"} mapped to their constants, and every constant is found under its own code |
| Store.Without | quora-service/src/main/java/com/upgrad/quora/service/dao/AnswerDao.java:47-52 | removing a key from the row order keeps exactly the other keys, keeps them free of duplicates, never lengthens the order, and leaves it as it was when the key is absent |
| Store.Table.Get | quora-service/src/main/java/com/upgrad/quora/service/dao/AnswerDao.java:29-41 | a lookup by uuid finds a row exactly when one is stored under that uuid, and then returns that row; otherwise it returns nothing, as the DAO returns null |
| Store.Table.Insert | quora-service/src/main/java/com/upgrad/quora/service/dao/AnswerDao.java:24-27 | persisting a row with a new uuid adds exactly that row, places it last in the row order, grows the table by one and keeps the table well formed |
| Store.Table.Update | quora-service/src/main/java/com/upgrad/quora/service/dao/AnswerDao.java:43-45 | merging a stored row replaces only that row, keeps the set of uuids and the row order, and keeps the table well formed |
| Store.Table.Delete | quora-service/src/main/java/com/upgrad/quora/service/dao/AnswerDao.java:47-52 | removing a row drops exactly that uuid, keeps every other row, keeps the table well formed, and changes nothing when no row has that uuid, as the DAO skips a null entity |
| Store.Table.Select | quora-service/src/main/java/com/upgrad/quora/service/dao/AnswerDao.java:54-72 | a list query returns only stored rows that satisfy the filter, and, in a well-formed table, every such row; when distinct uuids hold distinct rows, no row is returned twice |
| AccessPolicy.Classify | quora-service/src/main/java/com/upgrad/quora/service/business/QuestionService.java:74-83 | a token is unknown exactly when no session holds it, signed out exactly when its session has a logout time, and otherwise live with that session |
| QuestionService.ValidateUserForDelete | quora-service/src/main/java/com/upgrad/quora/service/business/QuestionService.java:73-91 | an unknown token fails with ATHR-001; a signed-out session fails with ATHR-002; a live session succeeds with that session exactly when its user owns the question or has the admin role, and otherwise fails with the delete-denied code |
| QuestionService.ValidateUserForEdit | quora-service/src/main/java/com/upgrad/quora/service/business/QuestionService.java:102-120 | an unknown token fails with ATHR-001; a signed-out session fails with ATHR-002; a live session succeeds with that session exactly when its user owns the question, and otherwise fails with the edit-denied code |
| QuestionService.ValidationFollowsPolicy | quora-service/src/main/java/com/upgrad/quora/service/business/QuestionService.java:73-120 | both validations succeed exactly when the token is live and the reference owner/admin policy permits the action |
| QuestionService.AdminDeletesButDoesNotEdit | quora-service/src/main/java/com/upgrad/quora/service/business/QuestionService.java:86-119 | a live caller allowed to edit is also allowed to delete; an admin who does not own the question may delete it but not edit it |
| QuestionService.CreateQuestion | quora-service/src/main/java/com/upgrad/quora/service/business/QuestionService.java:37-40 | given a new uuid and a primary key no stored question or answer uses, the question is stored under its uuid with that key, is returned as stored, and nothing else changes; the database invariant (unique keys, answers pointing at their own question) keeps holding |
| QuestionService.DeleteQuestion | quora-service/src/main/java/com/upgrad/quora/service/business/QuestionService.java:49-62 | an unknown question fails with the missing-question code and changes nothing; otherwise the delete validation decides; on success exactly that question is removed and returned; on failure nothing changes |
| QuestionService.EditQuestion | quora-service/src/main/java/com/upgrad/quora/service/business/QuestionService.java:134-150 | an unknown question fails with the missing-question code; otherwise the edit validation decides; on success only the question's content and date change, in place, and the edited question is returned; on failure nothing changes |
| QuestionService.GetAllQuestions | quora-service/src/main/java/com/upgrad/quora/service/business/QuestionService.java:158-161 | the list holds only stored questions and, in a well-formed table, every stored question; with questions filed under their own uuid, no uuid is listed twice |
| QuestionService.GetAllQuestionsByUser | quora-service/src/main/java/com/upgrad/quora/service/business/QuestionService.java:170-179 | an unknown user id fails with the unknown-user code; otherwise the list holds only stored questions owned by that user and, in a well-formed table, all of them, no uuid twice |
| AnswerService.AddAnswer | quora-service/src/main/java/com/upgrad/quora/service/business/AnswerService.java:44-56 | an unknown question uuid fails with QUES-001 and changes nothing; otherwise the answer is stored under the fresh uuid with the content, time, owner and stored question, and returned |
| AnswerService.EditAnswer | quora-service/src/main/java/com/upgrad/quora/service/business/AnswerService.java:58-79 | an unknown answer fails with ANS-001; a caller who does not own the answer fails with ATHR-003 and changes nothing; the owner's edit replaces that answer's content and date and sets its owner to the caller, who has the stored owner's uuid; id, uuid and question are kept |
| AnswerService.DeleteAnswer | quora-service/src/main/java/com/upgrad/quora/service/business/AnswerService.java:81-98 | an unknown answer fails with ANS-001 from the edit enum; a caller who is not both owner and admin fails with ATHR-003 and changes nothing; otherwise exactly that answer is removed and returned |
| AnswerService.GetAllAnswer | quora-service/src/main/java/com/upgrad/quora/service/business/AnswerService.java:100-107 | an unknown question uuid fails with QUES-001; otherwise every listed answer is a stored answer whose foreign key is that question's primary key, and, when answers point at the question they were posted to, one posted to that question; in a well-formed table all such answers are listed, no uuid twice, each linked to the stored question |
| AnswerService.RelinkedBelongToQuestion | quora-service/src/main/java/com/upgrad/quora/service/dao/AnswerDao.java:54-63 | when every answer's foreign key names the question it was posted to, every answer listed for a question's primary key was posted to that question |
| AnswerService.EditAnswerFollowsPolicy | quora-service/src/main/java/com/upgrad/quora/service/business/AnswerService.java:68-71 | the edit-answer guard permits a caller exactly when the reference policy permits the edit |
| AnswerService.DeleteAnswerStricterThanPolicy | quora-service/src/main/java/com/upgrad/quora/service/business/AnswerService.java:93-95 | whoever may delete an answer is also permitted by the reference policy and may also edit it |
| AnswerService.OwnerWithoutAdminCannotDelete | quora-service/src/main/java/com/upgrad/quora/service/business/AnswerService.java:93-95 | an owner without the admin role is permitted by the reference policy but refused by the code |
| AnswerService.AdminCannotDeleteOthersAnswer | quora-service/src/main/java/com/upgrad/quora/service/business/AnswerService.java:93-95 | an admin who does not own the answer is permitted by the reference policy but refused by the code |
| AnswerService.MissingAnswerCodeShared | quora-service/src/main/java/com/upgrad/quora/service/business/AnswerService.java:87-88 | the edit enum's ANS-001 used by delete carries the same code and message as the delete enum's own ANS-001 |
| AnswerController.CheckForAuthorization | quora-api/src/main/java/com/upgrad/quora/api/controller/AnswerController.java:137-148 | a successful validation passes through; a re-login failure is replaced by exactly the endpoint's code and message; any other failure passes through unchanged; the exception kind is kept |
| AnswerController.CheckForAuthorizationIdempotent | quora-api/src/main/java/com/upgrad/quora/api/controller/AnswerController.java:137-148 | applying the rewrite twice gives the same result as applying it once |
| AnswerController.EndpointContexts | quora-api/src/main/java/com/upgrad/quora/api/controller/AnswerController.java:47-115 | every endpoint rewrites to "ATHR-002"; create, edit and delete use distinct messages; list answers uses the delete message, not the list-answers enum's own |
| AnswerController.CreateAnswer | quora-api/src/main/java/com/upgrad/quora/api/controller/AnswerController.java:43-66 | a failed validation is rewritten with the creation context and changes nothing; otherwise the answer is added for the validated user and the response is (uuid, "ANSWER CREATED") with 201 |
| AnswerController.EditAnswer | quora-api/src/main/java/com/upgrad/quora/api/controller/AnswerController.java:68-86 | a failed validation is rewritten with the edit context and changes nothing; otherwise the service edit runs for the validated user and the response is (uuid, "ANSWER EDITED") with 201 |
| AnswerController.DeleteUser | quora-api/src/main/java/com/upgrad/quora/api/controller/AnswerController.java:88-100 | a failed validation is rewritten with the delete context and changes nothing; otherwise the service delete runs and the response is (uuid, "ANSWER DELETED") with 200 |
| AnswerController.ToDetails | quora-api/src/main/java/com/upgrad/quora/api/controller/AnswerController.java:124-131 | one response entry per answer, in order, holding its uuid, its text and its question's content |
| AnswerController.GetAllAnswersToQuestion | quora-api/src/main/java/com/upgrad/quora/api/controller/AnswerController.java:111-135 | a failed validation is rewritten with the delete context; an unknown question fails with QUES-001; otherwise the body holds, one per listed answer and in order, its uuid, its text and its question's content, with 200 |
| QuestionController.Rewrite | quora-api/src/main/java/com/upgrad/quora/api/controller/QuestionController.java:92-98 | a failure whose code matches the caught constant gets that constant's message with its code and kind kept; any other failure is unchanged |
| QuestionController.RemapCreateQuestion | quora-api/src/main/java/com/upgrad/quora/api/controller/QuestionController.java:51-60 | the create-question prompt code gets its message, USR-001 gets its default message, anything else passes through; the code and kind are kept |
| QuestionController.RemapDeleteQuestion | quora-api/src/main/java/com/upgrad/quora/api/controller/QuestionController.java:92-98 | only the delete-question prompt code gets a new message; anything else passes through; the code and kind are kept |
| QuestionController.RemapEditQuestion | quora-api/src/main/java/com/upgrad/quora/api/controller/QuestionController.java:124-130 | only the edit-question prompt code gets a new message; anything else passes through; the code and kind are kept |
| QuestionController.RemapGetAllQuestions | quora-api/src/main/java/com/upgrad/quora/api/controller/QuestionController.java:156-165 | the list-questions prompt code gets its message, USR-001 gets its default message, anything else passes through; the code and kind are kept |
| QuestionController.RemapGetAllQuestionsByUser | quora-api/src/main/java/com/upgrad/quora/api/controller/QuestionController.java:197-204 | only the by-user prompt code gets a new message, so USR-001 passes through unchanged; the code and kind are kept |
| QuestionController.RemapsKeepCodeAndAreStable | quora-api/src/main/java/com/upgrad/quora/api/controller/QuestionController.java:51-204 | none of the five catch blocks changes an exception's code or kind, and applying any of them twice equals applying it once |
| QuestionController.CreateQuestion | quora-api/src/main/java/com/upgrad/quora/api/controller/QuestionController.java:45-76 | a failed validation is remapped and changes nothing; otherwise the question is stored, under the fresh uuid and primary key, with the validated user as owner, and the response is (uuid, "QUESTION CREATED") with 201 |
| QuestionController.DeleteQuestion | quora-api/src/main/java/com/upgrad/quora/api/controller/QuestionController.java:86-107 | a failed validation is remapped and changes nothing; otherwise the service delete decides, and success answers (uuid, "QUESTION DELETED") with 200 |
| QuestionController.EditQuestionContent | quora-api/src/main/java/com/upgrad/quora/api/controller/QuestionController.java:118-141 | a failed validation is remapped and changes nothing; otherwise the service edit decides, and success answers (uuid, "QUESTION EDITED") with 200 |
| QuestionController.ToDetails | quora-api/src/main/java/com/upgrad/quora/api/controller/QuestionController.java:170-214 | one response entry per question, in order, holding its uuid and its content; it models both list loops, of getAllQuestions (lines 170-174) and of getAllQuestionsByUser (lines 209-214) |
| QuestionController.GetAllQuestions | quora-api/src/main/java/com/upgrad/quora/api/controller/QuestionController.java:150-177 | a failed validation is remapped; otherwise the body lists every stored question as (uuid, content) with 200, and nothing changes |
| QuestionController.GetAllQuestionsByUser | quora-api/src/main/java/com/upgrad/quora/api/controller/QuestionController.java:189-219 | a failed validation is remapped; an unknown user id fails; otherwise the body lists that user's questions as (uuid, content) with 200, and nothing changes |

## Left out

- `CommonService.validateUser` is not part of this model. The controllers take it as a function from token to session-or-exception.
- `AuthErrorCode`, the `Question*ErrorCode` enums, `GetAllQuestionErrorCode`, `GellAllQuestionByUserErrorCode` and `UserRole` are not part of this model. Their constants and the admin role name are fields of an `ExternalCodes` parameter, so no literal is guessed.
- `DatabaseErrorCode` is not used by the modelled operations and is not modelled.
- JPA internals are reduced to tables keyed by uuid: `EntityManager` persistence, named queries, transactions and flushing. The filter of `answerByQuestionId` is assumed to compare the answer's question id. The filter of the by-owner question query is assumed to compare the owner's uuid. The model's list queries return rows in table order, and no contract relies on that order.
- `UserDao`, `UserAuthDao` and the missing `QuestionDao` write and list methods are not part of this model. Users and sessions are maps, and questions use the same table operations as answers.
- Deleting a question does not cascade to its answers. Any database-level cascade is not part of this model.
- UUID generation, `ZonedDateTime.now()` and database-generated ids are parameters. That a fresh uuid is not already stored is a precondition. That a generated question key is used by no stored question and by no stored answer's question is also a precondition, because the database never reuses a key.
- Entities are values. An in-place setter on a loaded entity is modelled as writing the updated row back, so JPA object identity and aliasing are not captured.
- `AnswerService.EditAnswer` requires the caller to be a stored user. The source dereferences the result of `userDao.getUserById` without a null check, and that null-pointer path is not modelled. `AnswerController.EditAnswer` carries the same precondition.
- The user lookup inside `deleteAnswer` has no effect on the outcome and is not modelled.
- The placeholder question entity that `AnswerController.createAnswer` builds from the path uuid is modelled as that uuid alone.
- HTTP mapping from exceptions to statuses, request and response marshalling, Spring wiring, logging and console output are left out. Only success statuses and bodies are modelled.
- Concurrency between requests is left out. Each operation runs alone against the database.
- Store.Table.Select: states which rows are returned and that none is returned twice, but not their order. The named queries are not part of this model, so no order is known to promise.
- QuestionService.GetAllQuestions: states which questions are listed, each once, but not their order, as for Store.Table.Select.
- QuestionService.GetAllQuestionsByUser: states which questions are listed, each once, but not their order, as for Store.Table.Select.
- AnswerService.GetAllAnswer: states which answers are listed, each once, but not their order, as for Store.Table.Select.
