# Online exam backend: a verified model

This project models the core of an Express/Mongoose backend for proctored online exams.

- **Accounts.** Users register and log in, and administrators are created and log in
  through their own routes. Email addresses are trimmed and lower-cased, and passwords
  never appear in a response.
- **Authentication.** The `protect` middleware turns a bearer token into a request user,
  and the `admin` middleware lets only administrators through.
- **Question catalog.** The catalog has four sections: `mcqs`, `aptitude`, `ai` and
  `coding`. Save hooks derive a `questionId` from the section and the question number.
  They drop the fields that do not belong to the section, and they hide every test case
  of a coding question after the second.
- **Exam lifecycle.** A candidate starts an exam. An auto-submit timer is armed. Answers
  are graded as they arrive: a choice answer by equality with the stored answer, a coding
  answer by comparing trimmed text with every expected output. A video recording can be
  uploaded. The exam is completed and scored either by the candidate or by the timer.
- **Administration.** Paginated user and exam listings, score statistics, and deleting a
  user who owns no exam.

Stateful parts are Dafny classes with `modifies` clauses:

- a user document and the users collection;
- a question document and the question catalog;
- an exam document;
- an Express request.

Each method is tied to pure functions, and the lemmas state the system's promises about
those functions.

External inputs are parameters of the model:

- the clock (`now`, `scheduledAt`, the upload time stamp);
- JWT verification (a `verify` function yielding a verified id, an expiry or an invalid token);
- freshly generated ids;
- timer handles.

Modules, one per source file (plus `Wrappers` and `Text`):

| module | models |
|---|---|
| `UserModel` | `src/models/user.model.js` |
| `QuestionModel` | `src/models/question.model.js` |
| `ExamModel` | `src/models/exam.model.js` |
| `AuthMiddleware` | `src/middleware/auth.middleware.js` |
| `AuthRoutes` | `src/routes/auth.routes.js` |
| `QuestionRoutes` | `src/routes/question.routes.js` |
| `ExamRoutes` | `src/routes/exam.routes.js` |
| `AdminRoutes` | `src/routes/admin.routes.js` |
| `Text` | the JavaScript string operations used above (`trim`, `toLowerCase`, `replace`, `startsWith`), number printing, and `mongoose.isValidObjectId` on strings |

## Model

| member | source | states |
|---|---|---|
| `Text.TrimIsSlice` | src/models/user.model.js:9 | The trimmed string is a contiguous slice of the input, and everything cut from either end is white space. |
| `Text.TrimIdempotent` | src/models/user.model.js:9 | Trimming a trimmed string changes nothing. |
| `Text.ToLowerIdempotent` | src/models/user.model.js:18 | Lower-casing a lower-case string changes nothing. |
| `Text.IntToStringInjective` | src/models/question.model.js:84 | Distinct numbers print as distinct decimal strings. |
| `UserModel.ValidEmailIff` | src/models/user.model.js:20-23 | The email scan accepts exactly the strings matching `^[^\s@]+@[^\s@]+\.[^\s@]+$`. |
| `UserModel.NormalizeEmail` | src/models/user.model.js:17-18 | The `trim` and `lowercase` setters yield a lower-case string. It has no inner spaces exactly when the trimmed input has none. |
| `UserModel.NormalizeEmailIdempotent` | src/models/user.model.js:17-18 | Normalising twice is normalising once, so a stored email is found again by its own value. |
| `UserModel.LowerFixesNormalized` | src/models/user.model.js:42-47 | The pre-save lower-casing leaves an email already set through the setters unchanged. |
| `UserModel.ToJson` | src/models/user.model.js:55-59 | `toJSON` removes the `password` key and keeps every other key with its value. |
| `UserModel.InsertKeepsInvariant` | src/models/user.model.js:16 | Appending a user with a new id and a new lower-case email keeps emails unique, ids unique and emails lower case. |
| `UserModel.RemoveKeepsInvariant` | src/models/user.model.js:16 | Removing any user keeps the collection invariant. |
| `UserModel.UserDoc.constructor` | src/models/user.model.js:4-39 | A new document holds the trimmed name, the normalised email and the given password and role, with both flags false. |
| `UserModel.UserDoc.PreSave` | src/models/user.model.js:42-47 | The hook lower-cases the email exactly when it was modified, and touches nothing else. |
| `UserModel.UserTable.constructor` | src/models/user.model.js:4-39 | An empty collection satisfies the invariant. |
| `UserModel.UserTable.Create` | src/models/user.model.js:4-47 | A create succeeds iff the record passes the name, email and password validators and neither its id nor its normalised email is taken. On success the record is appended; on failure nothing changes. The invariant is kept. |
| `UserModel.UserTable.Remove` | src/models/user.model.js:4-39 | The user with the id is removed and returned, and the rest keep their order. An absent id changes nothing. |
| `AuthMiddleware.ExtractTokenShape` | src/middleware/auth.middleware.js:8 | `Bearer <t>` yields exactly `<t>`, and a header without the prefix is used as it is. |
| `AuthMiddleware.Protect` | src/middleware/auth.middleware.js:5-53 | `next` is called iff a non-empty token verifies to the id of an existing user (hex digits compared without regard to case, as the ObjectId cast does), and the request user then carries no password. Every refusal is a 401. A missing token, an expired token, an unknown user and any other failure each get their own message. A verified id that is not an ObjectId makes the lookup throw, so it gets the invalid-token message. |
| `AuthMiddleware.AdminGate` | src/middleware/auth.middleware.js:56-74 | `next` is called iff the request user's role is `admin`. Otherwise the answer is 403, or 500 when there is no request user at all. |
| `AuthMiddleware.ProtectThenAdmin` | src/middleware/auth.middleware.js:56-66 | Behind `protect`, a request passes the admin gate iff its token belongs to an existing user whose role is admin. |
| `AuthMiddleware.ProtectRequest` | src/middleware/auth.middleware.js:33-35 | On success `req.user` is set and `next` is called once. On a refusal only the response is set. |
| `AuthMiddleware.AdminRequest` | src/middleware/auth.middleware.js:56-74 | `next` is called once for an admin and never otherwise. `req.user` is unchanged. |
| `AuthRoutes.SignUp` | src/routes/auth.routes.js:16-21 | The shared registration path: a missing field or a taken email gives 400. Otherwise exactly the new record is appended (201) or creation fails with nothing stored (500). |
| `AuthRoutes.Register` | src/routes/auth.routes.js:8-30 | 400 for a missing field or a known email. 201 with a token for the new id iff the user record was created with role `user`. Otherwise 500 with no token. |
| `AuthRoutes.CreateAdmin` | src/routes/auth.routes.js:66-95 | As register, with role `admin`. The token carries the id and the role. |
| `AuthRoutes.Login` | src/routes/auth.routes.js:33-53 | 400 iff email or password is empty. Otherwise 200 with a token or 401, and a token exactly on 200. |
| `AuthRoutes.LoginIff` | src/routes/auth.routes.js:37-44 | With unique emails, login succeeds iff some stored user has the normalised email and exactly the given password. The token is that user's. |
| `AuthRoutes.LoginAfterRegister` | src/routes/auth.routes.js:8-53 | After a registration, logging in with the same email and password succeeds and yields the new user's token. |
| `AuthRoutes.AdminLogin` | src/routes/auth.routes.js:98-120 | 400 iff email or password is empty. Otherwise 200 with a token or 401. |
| `AuthRoutes.AdminLoginIff` | src/routes/auth.routes.js:102-109 | Admin login succeeds iff the user with that email is an admin whose password matches. The token then carries the admin role. |
| `AuthRoutes.BuildPatch` | src/routes/auth.routes.js:132-135 | The patch carries exactly the fields sent non-empty, with their values. |
| `AuthRoutes.ApplyPatch` | src/routes/auth.routes.js:137 | Fields absent from the patch keep their values. The id, role and flags never change. A patched email is normalised. |
| `AuthRoutes.ReplaceKeepsInvariant` | src/routes/auth.routes.js:137 | Replacing a user by one with the same id and an email no other user has keeps the collection invariant. |
| `AuthRoutes.UpdateUser` | src/routes/auth.routes.js:123-144 | 400 iff no field is sent. An absent target gives 200 with no user. A found user is always stored in place with the patched fields (200), keeping its id, role, login flag and blocked flag, unless the new email is held by another user, which is exactly when the update is refused with 500. The invariant is kept. |
| `QuestionModel.ValidShape` | src/models/question.model.js:26-63 | A valid question is a choice question (four options, a non-empty answer, no test cases) or a coding question (no options, no answer, at least one test case). |
| `QuestionModel.QuestionIdInjective` | src/models/question.model.js:83-86 | For sections of the enum, two derived ids are equal iff the section and question number are equal. |
| `QuestionModel.Cleaned` | src/models/question.model.js:89-97 | A choice question loses its test cases and a coding question its options. Every other field is kept. |
| `QuestionModel.HideBeyondTwo` | src/models/question.model.js:100-108 | A coding question with more than two test cases shows exactly the first two. Inputs and outputs are kept, assuming the spread copies them (see Left out). Anything else is unchanged. |
| `QuestionModel.HideBeyondTwoIdempotent` | src/models/question.model.js:100-108 | Re-marking hidden test cases a second time changes nothing. |
| `QuestionModel.SavedQuestion` | src/models/question.model.js:83-108 | A save succeeds iff the hooked question validates. The stored question is valid and carries its derived id. It keeps the caller's other fields, has the required shape and hidden marks, and saving it again changes nothing. |
| `QuestionModel.QuestionDoc.constructor` | src/models/question.model.js:65-69 | A new document has empty arrays for missing ones and status `active` when none is given. |
| `QuestionModel.QuestionDoc.Load` | src/models/question.model.js:4-79 | A loaded document holds exactly the stored question. |
| `QuestionModel.QuestionDoc.AssignQuestionId` | src/models/question.model.js:83-86 | Only `questionId` changes, to the section and number joined by `-`. |
| `QuestionModel.QuestionDoc.Cleanup` | src/models/question.model.js:89-97 | The document becomes the cleaned question. |
| `QuestionModel.QuestionDoc.HideTestCases` | src/models/question.model.js:100-108 | Only the test cases change, to their re-marked form. |
| `QuestionModel.QuestionDoc.Save` | src/models/question.model.js:83-108 | Saving reports success iff the question saves. The document then holds the saved question; on failure it holds the hooked but invalid question. |
| `QuestionRoutes.CatalogQuestionIds` | src/models/question.model.js:80 | Every stored question is valid, and the unique `(section, questionNumber)` index makes the derived `questionId`s unique. |
| `QuestionRoutes.AppendKeepsInvariant` | src/models/question.model.js:80 | Appending a saved question that clashes with no unique index keeps the catalog invariant. |
| `QuestionRoutes.ReplaceKeepsInvariant` | src/routes/question.routes.js:100-101 | Replacing a question by a saved one that clashes with no other question keeps the invariant. |
| `QuestionRoutes.RemoveKeepsInvariant` | src/routes/question.routes.js:119 | Removing a question keeps the invariant. |
| `QuestionRoutes.FindById` | src/routes/question.routes.js:80 | The result is the position of the question whose id equals the lower-cased parameter, and `None` iff there is none. |
| `QuestionRoutes.NewQuestion` | src/routes/question.routes.js:58-61 | The new document takes the body's fields, the caller as `createdBy` and the fresh id. |
| `QuestionRoutes.CreateChecksSound` | src/routes/question.routes.js:41-56 | Every 400 answer of the create route rejects a question that the schema would also have refused. |
| `QuestionRoutes.Merge` | src/routes/question.routes.js:100 | Each of the seven keys the body carries overwrites its field, and each missing key keeps the stored value. The id, `questionId` and `createdBy` are kept. |
| `QuestionRoutes.MergeLaws` | src/routes/question.routes.js:100 | Merging an empty body is the identity, and merging a body twice is merging it once. |
| `QuestionRoutes.EmptyUpdateKeepsQuestion` | src/routes/question.routes.js:100-101 | An update sending no field saves a stored question unchanged. |
| `QuestionRoutes.AssignBody` | src/routes/question.routes.js:100 | Assigning the body to a loaded document leaves it equal to the merged question. |
| `QuestionRoutes.OfSection` | src/routes/question.routes.js:26 | The section's query returns no more questions than the catalog holds, all of them in that section. |
| `QuestionRoutes.OfSectionMembers` | src/routes/question.routes.js:26 | A question is returned iff it is in the catalog and in that section, and none is returned more often than the catalog holds it. |
| `QuestionRoutes.OfSectionAppend` | src/routes/question.routes.js:26 | Filtering by section distributes over concatenation. |
| `QuestionRoutes.OfSectionPosition` | src/routes/exam.routes.js:62 | The k-th question of a section is a catalog entry preceded by exactly k questions of that section. |
| `QuestionRoutes.SortByNumber` | src/routes/question.routes.js:26 | The sort yields a permutation of its input, ordered by question number. |
| `QuestionRoutes.SectionListing` | src/routes/question.routes.js:22-27 | Each listed section holds exactly its questions, each as often as stored, in ascending number order. |
| `QuestionRoutes.Catalog.constructor` | src/routes/question.routes.js:20-34 | An empty catalog satisfies the invariant. |
| `QuestionRoutes.Catalog.Create` | src/routes/question.routes.js:37-69 | 400 iff a route check fails. 201 iff additionally the question saves without clashing, in which case the saved question is appended. Otherwise 500 with nothing stored. |
| `QuestionRoutes.Catalog.Update` | src/routes/question.routes.js:72-108 | 400 for a malformed id and 404 for an unknown one. Then 400 from the route checks, 500 when the merged question fails to save or clashes, and otherwise 200 with the saved merge in place. Anything but 200 changes nothing. |
| `QuestionRoutes.Catalog.Delete` | src/routes/question.routes.js:111-130 | 400 for a malformed id and 404 for an unknown one. Otherwise exactly that question is removed and no question with that id remains. |
| `QuestionRoutes.Catalog.ListForUser` | src/routes/question.routes.js:20-34 | The listing has exactly the four sections as keys, each mapped to its questions sorted by number. |
| `ExamModel.MatchesVideoUrlIff` | src/models/exam.model.js:4 | The hand-written matcher accepts exactly the strings matching `^(https?:\/\/)?([a-z0-9]+\.)+[a-z0-9]{2,4}\/[^\s]*$`. |
| `ExamModel.CorrectCount` | src/models/exam.model.js:81 | The number of correct answers never exceeds the number of answers. |
| `ExamModel.RatioBounds` | src/models/exam.model.js:81-82 | A ratio of correct answers to total answers lies in [0, 1]. It is 1 iff all are correct and 0 iff none is. |
| `ExamModel.PercentScoreRange` | src/models/exam.model.js:81-82 | The score lies in [0, 100]. It is 100 iff every answer is correct and 0 iff none is. |
| `ExamModel.Exam.constructor` | src/models/exam.model.js:6-75 | A new exam is in progress with score 0, no answers, no end time, no timer and no video. |
| `ExamModel.Exam.CalculateScore` | src/models/exam.model.js:78-84 | With no answers the score is kept; otherwise it becomes the percentage of correct answers. |
| `ExamModel.Exam.CompleteExam` | src/models/exam.model.js:87-99 | An exam not in progress is left untouched. Otherwise it is completed at `now`, its timer dropped and its score recomputed, with answers, video and schedule kept. |
| `ExamModel.Exam.SubmitVideo` | src/models/exam.model.js:102-109 | A URL is stored iff it is non-empty and matches the pattern. Otherwise the call fails and the old value stays. |
| `ExamModel.Exam.ScheduleAutoSubmit` | src/models/exam.model.js:112-134 | A passed deadline completes the exam at once, exactly as `completeExam` does: completed at `now`, timer dropped, score recomputed, and answers, video and schedule kept. Otherwise a timer is recorded only when none is, with every other field kept, and an already armed exam is untouched. |
| `ExamModel.AutoSubmitCallback` | src/models/exam.model.js:123-129 | The timer completes a reloaded exam only when it still exists and is in progress. It then leaves the same state `completeExam` does: score recomputed, and answers, video and schedule kept. |
| `ExamModel.CompleteTwice` | src/models/exam.model.js:88 | A second completion keeps the first one's end time: duplicate submissions are ignored. |
| `ExamRoutes.FileFilterIff` | src/routes/exam.routes.js:17-22 | An upload passes the filter iff its mimetype starts with `video/`. |
| `ExamRoutes.UploadPathNeverMatches` | src/routes/exam.routes.js:101 | No stored upload path `uploads/<time>-<name>` matches the exam's video URL pattern. |
| `ExamRoutes.UploadPathIsReference` | src/routes/exam.routes.js:101 | Every stored upload path is a video reference of the corrected schema. |
| `ExamRoutes.Guard` | src/routes/exam.routes.js:54-60 | 403 iff the exam is missing or owned by someone else. 400 iff it is the caller's but no longer in progress. Otherwise the handler goes on. |
| `ExamRoutes.QuestionAt` | src/routes/exam.routes.js:62-66 | A question number below 1 is a query error. A number beyond the section's size finds nothing. Otherwise the result is a catalog question of that section. |
| `ExamRoutes.QuestionAtPosition` | src/routes/exam.routes.js:62 | A found question is the catalog entry preceded by exactly `questionNumber - 1` questions of its section. |
| `ExamRoutes.EvaluateCode` | src/routes/exam.routes.js:143-145 | Grading fails iff the code is missing and there is a test case. Otherwise the verdict is true iff the trimmed code equals every trimmed expected output. |
| `ExamRoutes.DifferentOutputsNeverPass` | src/routes/exam.routes.js:143-145 | A question with two different expected outputs can never be passed. |
| `ExamRoutes.EvaluateIgnoresHiding` | src/routes/exam.routes.js:143-145 | Hiding test cases does not change a verdict. |
| `ExamRoutes.Grade` | src/routes/exam.routes.js:68-70 | A coding question is graded by `evaluateCode`; any other question always gets a verdict. |
| `ExamRoutes.GradeStored` | src/routes/exam.routes.js:68-70 | On a stored question, a choice answer is correct iff it equals the stored answer, and a missing answer never is. A coding answer errs iff the code is missing. |
| `ExamRoutes.Start` | src/routes/exam.routes.js:26-46 | A missing or non-positive duration gives 400 with no exam. Otherwise 201 with a new exam owned by the caller, started at `now`, with no answers, score 0 and no video. If the deadline lies ahead it is in progress with no end time and the timer armed. Otherwise it is completed at once with no timer. |
| `ExamRoutes.SubmitAnswer` | src/routes/exam.routes.js:49-86 | Guard answers first. Then 500 for a query error, 404 for a missing question, and 500 for a failed grading or an empty section. Otherwise 200, with exactly one graded record appended and nothing else changed. |
| `ExamRoutes.SubmitTwice` | src/routes/exam.routes.js:72-79 | Submitting the same answer twice appends two equal records. |
| `ExamRoutes.RecordingAsWritten` | src/routes/exam.routes.js:89-108 | As written: a non-video is refused with 500 before the guards, and a missing file gives 500. 200 is reached only for a stored path matching the URL pattern, which never happens. |
| `ExamRoutes.SubmitRecording` | src/routes/exam.routes.js:89-108 | Corrected: after the filter, the guards and the file check, the exam records the stored upload path (200). Nothing else changes. |
| `ExamRoutes.End` | src/routes/exam.routes.js:111-128 | Guard answers leave the exam untouched. Otherwise the exam is completed and scored at `now` (200), with its answers, video, start time and duration kept. |
| `AdminRoutes.PageParam` | src/routes/admin.routes.js:11-12 | A missing, unparsable or zero value falls back to the default, and any other value is kept. |
| `AdminRoutes.CeilDiv` | src/routes/admin.routes.js:26 | The page count has the sign of the limit. |
| `AdminRoutes.CeilDivBounds` | src/routes/admin.routes.js:26 | With a positive limit, the page count is the least number of pages holding every item. |
| `AdminRoutes.Paginate` | src/routes/admin.routes.js:16 | A negative skip is a query error. Otherwise the result is the contiguous run starting at `skip`, no longer than the absolute value of the limit, and unbounded for limit 0. |
| `AdminRoutes.ListPage` | src/routes/admin.routes.js:8-32 | A listing fails (500) iff its skip is negative. Otherwise it reports the collection size and the requested page. The items are the slice of the collection starting at `(page - 1) * limit` and at most `limit` long. The page count is `Math.ceil(total / limit)`. |
| `AdminRoutes.ListPageDefaults` | src/routes/admin.routes.js:11-16 | Without parameters, the first ten items are listed as page 1 of `ceil(total / 10)`. |
| `AdminRoutes.EveryItemOnSomePage` | src/routes/admin.routes.js:13-26 | With a positive limit, every item is listed on a page within the reported page count, at the expected position. |
| `AdminRoutes.PublicUsers` | src/routes/admin.routes.js:16 | Every listed user is its `toJSON` form, without a password. |
| `AdminRoutes.MaxOf` | src/routes/admin.routes.js:74 | `$max` is one of the scores and bounds all of them from above. |
| `AdminRoutes.MinOf` | src/routes/admin.routes.js:75 | `$min` is one of the scores and bounds all of them from below. |
| `AdminRoutes.SumBetween` | src/routes/admin.routes.js:73 | A sum lies between n times the least and n times the greatest value. |
| `AdminRoutes.ExamStats` | src/routes/admin.routes.js:66-89 | There are no statistics (404) iff there are no exams. Otherwise `totalExams` is the exam count, the average times the count is the sum of the scores (the mean), and the maximum and minimum are the greatest and least scores. |
| `AdminRoutes.AverageOfEqualScores` | src/routes/admin.routes.js:72 | When every exam has the same score, the reported average is that score. |
| `AdminRoutes.ExamStatsBounds` | src/routes/admin.routes.js:72-75 | The maximum and minimum are scores bounding all the others, and the average lies between them. |
| `AdminRoutes.RemoveKeepsOthers` | src/routes/admin.routes.js:103 | Removing one user keeps every other user findable. |
| `AdminRoutes.DeleteUser` | src/routes/admin.routes.js:92-113 | 500 for a malformed id, 400 for a user who owns an exam, and 404 for an unknown user. Otherwise exactly that user is removed (200). Every exam owner stays findable and the invariant is kept. |

## Left out

- JWT signing and verification: `verify` is a parameter, and a token is modelled as the id (and role) it would carry, with no secret and no expiry time.
- Timers: `setTimeout` and `clearTimeout` are not modelled. A handle is an opaque number, and the callback is a method the environment calls. The hook stores `this.autoSubmitTimerId = timerId.toString();` (src/models/exam.model.js:131), and `completeExam` later calls `clearTimeout(parseInt(this.autoSubmitTimerId));` (src/models/exam.model.js:92). In Node a timer object's string form is `"[object Object]"`, which `parseInt` turns into `NaN`, so nothing is cleared and a completed exam's timer still fires. The callback then finds the exam completed and does nothing, which the model states.
- autoSubmitExam (src/routes/exam.routes.js:131-140) is never called. Its behaviour is the same as `ExamModel.AutoSubmitCallback`'s, which models it.
- `ExamModel.Exam.CalculateScore`: `toFixed(2)` rounds to two decimals and Mongoose casts the string back to a number. The model keeps the exact percentage.
- `AdminRoutes.ExamStats`: `$avg` is floating point. The model uses exact reals, so the average is exact.
- `AdminRoutes.PageParam`: `parseInt`'s parsing of the query string is abstracted. The parameter is the parsed integer, or `None` when it is missing or `NaN`.
- Fractional durations and question numbers: numbers are integers.
- `Text.ToLower`: only ASCII letters are lower-cased. JavaScript's Unicode case mapping is not modelled.
- Mongo mechanics: `populate`, `select`, `timestamps`, `createdAt` (the catalog's order stands for it), ObjectId generation (new ids are parameters), and the 12-character form of `isValidObjectId` (only 24 hex digits are ids).
- Request bodies: keys outside the seven question fields, `null` values and non-string types are not modelled. An absent string field is the empty string, except where the code tells undefined from empty.
- `ExamRoutes.SubmitAnswer`: a missing `section` or `questionNumber` in the body is not modelled. The section is a string and the number an integer.
- A malformed exam id, which would make `findById` throw (500), is not modelled: handlers receive the loaded exam or `null`.
- `ExamRoutes.Start`: a failing `Exam.create` (500) is not modelled. `allowedUsers` is stored but nothing reads it.
- The multer disk write and the 50 MB size limit: the stored path is a function of the time stamp and the original name.
- Concurrency: interleaving between the manual end and the timer, and the unawaited `save` in `scheduleAutoSubmit`. Each call is modelled as running to completion.
- `src/index.js` (server set-up, CORS, database connection) is not part of this model.
- `GET /questions/admin` and `GET /auth/me` are plain reads and are not modelled.
- `AuthRoutes.UpdateUser`: the target id comes from `req.user.userId`, which is an opaque input here.
- `QuestionModel.HideBeyondTwo`: the hook rebuilds each test case as `{ ...testCase, isHidden: index >= 2 }` (src/models/question.model.js:102-105). The model assumes this copy keeps `input` and `output`. On a Mongoose subdocument, object spread copies only the document's own internal properties. Depending on the Mongoose version, the cast of the reassigned array may then fail or drop the two fields. Library semantics are not modelled, so this outcome is not captured.
- `UserModel.ComparePassword`, `QuestionModel.Saved`, `QuestionModel.PreValidate` and the validator predicates are definitions. The members above state their properties.

## Findings

| source | as written | input that shows it | evidently intended | confidence | as-written member | corrected member |
|---|---|---|---|---|---|---|
| src/routes/exam.routes.js:101 | The recording route stores `req.file.path`, e.g. `uploads/1700000000000-clip.mp4`, in `videoRecording`. The schema validates that field against the URL pattern (src/models/exam.model.js:57), whose host must contain a dot before the first `/`. The host `uploads` has none, so every save fails and the route always answers 500. | a `video/mp4` upload named `clip.mp4` at time 1700000000000 by the exam's owner while the exam is in progress | the uploaded recording is stored and the route answers 200 | high, not executed | `ExamRoutes.RecordingAsWritten` (with `ExamRoutes.UploadPathNeverMatches`) | `ExamRoutes.SubmitRecording` (with `ExamRoutes.UploadPathIsReference`) |
