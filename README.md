# Personality assessment backend — a verified model

This project models the backend of a personality-assessment service. A
candidate answers behavioural interview questions. Once five distinct
questions are answered, a language model scores each answer against the
trait the question probes. A second call combines those scores into a
personality profile: Big Five scores, an MBTI type, strengths, weaknesses
and career fields. The backend keeps four tables: user accounts,
candidates, the question bank and assessments. It exposes the assessment
lifecycle and a bearer-token login over HTTP.

The model covers these parts:

- **The service layer.** Assessment creation, lookup and submission
  (`assessments.dfy`). The question bank and its bulk generation over the
  five traits (`questions.dfy`). The candidate registry (`candidates.dfy`).
- **The text handling of the model client** (`openrouter.dfy`). The
  numbered-list parser, the `[:count]` truncation, the brace-span JSON
  extraction with its fallback record, and the analysis summary.
- **The decision logic of the assessment endpoints**
  (`assessment_routes.dfy`): which status code each request gets, and the
  state change of the resume upload.
- **The authentication routes** (`auth.dfy`): token claims, registration,
  login and resolving the current user.

The tables form one `Database` class (`store.dfy`). The services update
its `seq` fields in place, guarded by `Valid()`, which requires:

- strictly increasing ids;
- unique candidate emails, account usernames and account emails;
- every assessment refers to a candidate that exists;
- every response key is a decimal question id.

Python's `str.strip`, `split`, `join`, `str(int)` and `int(str)` are
modelled in `text.dfy`. An insertion-ordered `dict` is modelled in
`dict.dfy`, and a decoded JSON value in `json.dfy`.

Anything the backend gets from outside is a function parameter:

- **The language model.** A reply, or none when the HTTP call raises.
- **`json.loads`.** A partial function.
- **Password hashing.** `hash` and `verify`.
- **JWT signing and verification.** `encode` and `decode`.
- **Python's `str()` of a decoded value.** `render`.
- **The clock.** Whole seconds since the epoch.
- **Whether the resume file write succeeded.** A flag.

A submission gets the language-model calls through two parameters:
`analyze` (`AnalyzerOf`) and `synthesize` (`SynthesizerOf`).

Where the code does not do what its structure evidently intends, the model
follows the code and models the intended behaviour beside it; "Findings"
lists these places.

## Model

| member | source | states |
|---|---|---|
| Common.Page | server/app/services/question_service.py:39 | the page holds `min(limit, n - min(skip, n))` rows, and row `i` is table row `skip + i` |
| Common.PagesAdjacent | server/app/services/question_service.py:39 | a page followed by the page starting where it ends is the page of both lengths together |
| Common.FirstIndex | server/app/services/candidate_service.py:42 | the position of the first row with the key, or the table length; no earlier row has it |
| Store.CandidateIndex | server/app/services/candidate_service.py:42 | the position of the first candidate with the id, or the table length when none has it |
| Store.AssessmentIndex | server/app/services/assessment_service.py:53 | the position of the first assessment with the id, or the table length when none has it |
| Store.QuestionById | server/app/services/assessment_service.py:123 | a question with that id from the table, or none exactly when no question has it |
| Store.AssessmentIndexFresh | server/app/services/assessment_service.py:37-39 | appending a row under the next id keeps ids increasing, and the row is found at the end |
| Store.CandidateIndexFresh | server/app/services/candidate_service.py:35-37 | appending a candidate under the next id keeps ids increasing, and the id is found at the new row only |
| Store.UserIdFresh | server/app/routes/auth.py:69-71 | appending an account under the next id keeps user ids increasing |
| Text.Strip | server/app/services/openrouter_service.py:120 | the result has no leading or trailing whitespace and is no longer than the input |
| Text.StripRemovesPadding | server/app/services/openrouter_service.py:116 | stripping removes exactly the whitespace around a stripped core |
| Text.JoinSplit | server/app/services/openrouter_service.py:116 | joining the parts of a split with the separator gives back the text |
| Text.SplitJoin | server/app/services/openrouter_service.py:70-73 | splitting a join of separator-free parts gives back the parts |
| Text.ParseIntOfIntToString | server/app/services/assessment_service.py:129-139 | `int(str(n)) == n`, so an upserted key always parses back to its question id |
| Text.IntToStringInjective | server/app/routes/assessments.py:60 | different integers have different decimal renderings |
| Dict.GetPutSame | server/app/services/assessment_service.py:129 | after `d[k] = v`, `d[k]` is `v` |
| Dict.GetPutOther | server/app/services/assessment_service.py:129 | after `d[k] = v`, every other key keeps its value |
| Dict.Put | server/app/services/assessment_service.py:129 | an existing key keeps its place and the count; a new key goes at the end and adds one |
| Dict.PutKeepsUniqueKeys | server/app/services/assessment_service.py:129-130 | an upsert keeps the keys distinct |
| OpenRouter.ItemText | server/app/services/openrouter_service.py:123 | the item is stripped and shorter than its line |
| OpenRouter.ItemTextAfterFirstDot | server/app/services/openrouter_service.py:123 | for a line with a `.`, the item is the stripped text after the first `.` |
| OpenRouter.ItemTextWithoutDot | server/app/services/openrouter_service.py:123 | for a line without a `.`, the item is the line minus its first character, stripped |
| OpenRouter.ListItems | server/app/services/openrouter_service.py:119-124 | no more items than lines, and every item stripped |
| OpenRouter.ListItemsAppend | server/app/services/openrouter_service.py:119-124 | the parser works line by line: the items of two blocks of lines are the items of each, in order |
| OpenRouter.ParsedQuestions | server/app/services/openrouter_service.py:113-126 | `_parse_questions` never returns more items than the stripped reply has lines, and every item is stripped |
| OpenRouter.ParseQuestions | server/app/services/openrouter_service.py:116-126 | the loop appends exactly the items of the kept lines, in line order |
| OpenRouter.ParseNumberedList | server/app/services/openrouter_service.py:113-126 | a reply that is a numbered list `1. q1`, `2. q2`, ... of plain questions parses back to exactly those questions |
| OpenRouter.TakePrefix | server/app/services/openrouter_service.py:43 | `items[:count]` is a prefix of length `min(count, n)`, and for a negative count it drops `-count` items from the end |
| OpenRouter.GeneratedQuestions | server/app/services/openrouter_service.py:32-43 | fails exactly when the model call fails, and otherwise returns at most `count` stripped questions |
| OpenRouter.GenerateQuestions | server/app/services/openrouter_service.py:40-43 | the method returns what OpenRouter.GeneratedQuestions gives |
| OpenRouter.GenerateFromNumberedList | server/app/services/openrouter_service.py:40-43 | a numbered reply with at most `count` entries yields exactly its questions |
| OpenRouter.BraceSpan | server/app/services/openrouter_service.py:136-138 | a span exists iff a `{` precedes a `}`; it runs from the first `{` to the last `}` |
| OpenRouter.ExtractJson | server/app/services/openrouter_service.py:128-148 | the decoded span (or whole text) when it decodes; otherwise exactly the fallback record carrying the original text |
| OpenRouter.ExtractEmbeddedObject | server/app/services/openrouter_service.py:136-139 | prose without `{`, then a braced body, then a trailer without `}` selects exactly the body |
| OpenRouter.ExtractWithoutBraces | server/app/services/openrouter_service.py:141-142 | text without `{` is decoded whole |
| OpenRouter.FallbackShape | server/app/services/openrouter_service.py:145-148 | the fallback record has `error`, lacks `score`, and carries the raw text |
| OpenRouter.AnalyzeResponse | server/app/services/openrouter_service.py:45-65 | an analysis exists exactly when the model call returns |
| OpenRouter.SummaryLines | server/app/services/openrouter_service.py:70-73 | one line per analysis entry, in entry order, present exactly when every entry has `score` and `explanation` |
| OpenRouter.SummaryLineByLine | server/app/services/openrouter_service.py:70-73 | the newline-joined summary splits back into exactly one line per entry |
| OpenRouter.GeneratePersonalityProfile | server/app/services/openrouter_service.py:67-91 | a profile exists exactly when every analysis is scored and the model call returns |
| OpenRouter.FallbackBreaksProfile | server/app/services/openrouter_service.py:70-73 | a fallback record among the analyses makes profile synthesis fail |
| QuestionService.GetQuestions | server/app/services/question_service.py:39 | one page of the question bank: at most `limit` rows, row `i` being table row `skip + i` |
| QuestionService.CreateQuestion | server/app/services/question_service.py:26-35 | appends and returns a row with the next id and the text, trait and difficulty as supplied |
| QuestionService.QuestionsByTrait | server/app/services/question_service.py:43 | exactly the questions of the trait, in table order |
| QuestionService.Tagged | server/app/services/question_service.py:58-63 | one draft per text, in order, each carrying the trait |
| QuestionService.ServiceBounded | server/app/services/question_service.py:56 | the model-backed generator returns at most 3 questions, and fails exactly when the model call fails |
| QuestionService.DraftsShape | server/app/services/question_service.py:48-65 | the bulk run succeeds iff every trait's generation succeeds; at most 3 drafts per trait; every draft carries a listed trait |
| QuestionService.DraftsStopAtFailure | server/app/services/question_service.py:55-56 | the first failed generation ends the run: later traits add nothing |
| QuestionService.DraftsFail | server/app/services/question_service.py:55-56 | a failed generation for a trait ends the run unsuccessfully, with the drafts of the earlier traits |
| QuestionService.DraftsStep | server/app/services/question_service.py:55-65 | one trait adds its texts, tagged with the trait, after the drafts so far |
| QuestionService.DraftRows | server/app/services/question_service.py:58-65 | draft `i` is stored as row `firstId + i` with difficulty 2 |
| QuestionService.DraftRowsAppend | server/app/services/question_service.py:53-65 | the rows of two draft groups are the rows of each, with ids running on |
| QuestionService.RowsAfterRows | server/app/services/question_service.py:58-65 | rows inserted after the rows of earlier drafts, numbered on from them, are the rows of all the drafts together |
| QuestionService.SavedStep | server/app/services/question_service.py:55-65 | one more trait with a successful generation extends the stored rows to those of the drafts including that trait |
| QuestionService.NextIdAfterRows | server/app/services/question_service.py:64 | after inserting `k` rows the next id is `k` larger |
| QuestionService.SaveTexts | server/app/services/question_service.py:58-65 | the inner loop inserts one row per text, with consecutive ids, the trait and difficulty 2 |
| QuestionService.SaveGenerated | server/app/services/question_service.py:53-67 | the nested loops insert and return exactly the rows of the drafts; a failed generation returns an error after the earlier traits' rows are stored |
| QuestionService.GenerateAndSaveQuestions | server/app/services/question_service.py:46-67 | the same over the five traits and the model-backed generator |
| QuestionService.TextsOfAppend | server/app/services/question_service.py:53-65 | the texts of one trait in two draft groups are the texts of each, in order |
| QuestionService.TextsOfTagged | server/app/services/question_service.py:58-63 | texts tagged with a trait belong to that trait and no other |
| QuestionService.DraftsOfTrait | server/app/services/question_service.py:48-65 | for distinct traits, each trait's drafts are exactly what its generation returned, and an unlisted trait has none |
| QuestionService.GeneratedPerTrait | server/app/services/question_service.py:48-67 | after a successful run, each of the five traits has exactly the questions generated for it, at most 3, and no other trait has any |
| QuestionService.TraitsDistinct | server/app/services/question_service.py:48-51 | the five traits are pairwise distinct |
| CandidateService.GetCandidates | server/app/services/candidate_service.py:50 | one page of the candidate table: at most `limit` rows, row `i` being table row `skip + i` |
| CandidateService.GetCandidate | server/app/services/candidate_service.py:42 | the candidate with the id from the table, or none exactly when no candidate has it |
| CandidateService.EmailIndex | server/app/services/candidate_service.py:46 | the position of the first candidate with the email, or the table length |
| CandidateService.GetCandidateByEmail | server/app/services/candidate_service.py:46 | the first candidate with the email, or none exactly when no candidate has it |
| CandidateService.CreateCandidate | server/app/services/candidate_service.py:24-38 | a taken email is refused with nothing inserted; otherwise a row with the name and email and no profile is appended under the next id |
| CandidateService.CreatedKeepsTable | server/app/services/candidate_service.py:26-38 | a create with a fresh email keeps ids increasing and emails distinct, and keeps every assessment's candidate |
| CandidateService.CreatedIsFound | server/app/services/candidate_service.py:30-38 | the new candidate is found by its email and by its id, with a null profile |
| CandidateService.UpdateCandidate | server/app/services/candidate_service.py:53-63 | an unknown id returns none with no change; an email held by another row fails at commit with no change; otherwise only name and email are replaced |
| CandidateService.RenamedKeepsTable | server/app/services/candidate_service.py:58-61 | a committed update keeps ids increasing, emails distinct and assessment links intact |
| CandidateService.UpdateIsFound | server/app/services/candidate_service.py:58-63 | the updated row is found under its id, keeps its profile, and every other id finds what it found before |
| AssessmentService.CreateAssessment | server/app/services/assessment_service.py:26-40 | an unknown candidate is refused with nothing inserted; otherwise an in-progress assessment with no responses and no result is appended |
| AssessmentService.CreatedKeepsTable | server/app/services/assessment_service.py:31-39 | creation keeps ids increasing, candidate links and well-formed responses |
| AssessmentService.CreatedIsFound | server/app/services/assessment_service.py:31-39 | the new assessment is found by its id, has the candidate, status `in_progress`, empty responses and no result |
| AssessmentService.GetAssessment | server/app/services/assessment_service.py:53 | the assessment with the id from the table, or none exactly when none has it |
| AssessmentService.AssessmentsByCandidate | server/app/services/assessment_service.py:91 | exactly the assessments of the candidate, in increasing id order |
| AssessmentService.Newest | server/app/services/assessment_service.py:75-76 | none iff the list is empty; otherwise a member with the largest id |
| AssessmentService.LatestAssessmentByUser | server/app/services/assessment_service.py:67-78 | none when no candidate is linked to the user; otherwise an assessment of a linked candidate |
| AssessmentService.LatestIsNewest | server/app/services/assessment_service.py:67-78 | for the first linked candidate: none iff it has no assessment, otherwise its assessment with the largest id |
| AssessmentService.LatestAsWrittenAlwaysFails | server/app/services/assessment_service.py:67 | as written, the query on the missing `user_id` column raises on every input |
| AssessmentService.LatestAsWrittenCounterexample | server/app/services/assessment_service.py:67 | a user with a linked candidate and an assessment gets it from the corrected lookup but an error from the code as written |
| AssessmentService.LatestAssessmentByUserAsWritten | server/app/services/assessment_service.py:66-78 | the lookup as written raises exactly when the candidate table lacks a `user_id` column, and would otherwise agree with the corrected one |
| AssessmentService.AnalysesErrPersists | server/app/services/assessment_service.py:138-145 | once an iteration raises, the loop's outcome is that error |
| AssessmentService.AnalysisStepOk | server/app/services/assessment_service.py:138-146 | one iteration leaves the loop running exactly when it had not raised, the key parses and, when the question exists, the model answers |
| AssessmentService.LastAnswer | server/app/services/assessment_service.py:138-146 | the last entry answering an existing question of the trait, or -1 |
| AssessmentService.AnalysesOk | server/app/services/assessment_service.py:138-146 | the loop succeeds iff every key parses and every existing question's analysis call returns |
| AssessmentService.AnalysesErrors | server/app/services/assessment_service.py:138-145 | the loop fails only with a malformed key or a failed model call, and never with a malformed key when all keys parse |
| AssessmentService.AnalysesByTrait | server/app/services/assessment_service.py:137-146 | one entry per trait; a trait with no answered existing question has none, and otherwise holds the analysis of its last answer |
| AssessmentService.AnalyzeAll | server/app/services/assessment_service.py:137-146 | the loop computes exactly the AssessmentService.Analyses fold |
| AssessmentService.Submission | server/app/services/assessment_service.py:117-125 | a missing assessment fails first, then a missing question; a success keeps the id |
| AssessmentService.SubmissionIs | server/app/services/assessment_service.py:117-130 | a successful submission is the submission to the assessment found by its id |
| AssessmentService.SubmissionFound | server/app/services/assessment_service.py:127-150 | below 5 keys the result is the upserted assessment; from 5 keys on it is completed with the synthesised profile, or the synthesis error |
| AssessmentService.Evaluated | server/app/services/assessment_service.py:136-150 | the evaluation fails only with a malformed key or a failed model call |
| AssessmentService.Submitted | server/app/services/assessment_service.py:127-150 | fails only in the loop or the synthesis; a success holds the upserted responses, keeps id, candidate and resume, is completed with a result from 5 keys on, and keeps status and result below |
| AssessmentService.SubmitStoresResponse | server/app/services/assessment_service.py:128-130 | the answer is stored under `str(question_id)`, every other key keeps its answer, the count grows by at most one, and a resubmission keeps the count (the intended persistence, see Findings) |
| AssessmentService.SubmittedAsWritten | server/app/services/assessment_service.py:128-130 | as written, the stored assessment is the intended one, except that an already non-empty `responses` keeps its old contents |
| AssessmentService.SubmitAsWrittenNeverCompletes | server/app/services/assessment_service.py:128-134 | as written, an in-progress assessment with at most one stored answer keeps at most one and stays in progress after any submission |
| AssessmentService.SubmitAsWrittenCounterexample | server/app/services/assessment_service.py:128-130 | answering questions 1 and 2 on a new assessment stores only the first as written, and both with the intended upsert |
| AssessmentService.SubmitBelowThreshold | server/app/services/assessment_service.py:133 | below 5 keys the submission succeeds and keeps status and result |
| AssessmentService.SubmitAtThreshold | server/app/services/assessment_service.py:133-150 | from 5 keys on, every submission re-evaluates, and the result is the new profile |
| AssessmentService.SubmitNeverReopens | server/app/services/assessment_service.py:133-134 | a completed assessment never returns to `in_progress` |
| AssessmentService.SubmitKeepsConsistent | server/app/services/assessment_service.py:133-150 | completed iff at least 5 responses, and a result iff completed, is preserved by submission |
| AssessmentService.UpsertWellFormed | server/app/services/assessment_service.py:129 | the upsert keeps keys distinct and decimal |
| AssessmentService.FallbackAnalysisFailsSubmit | server/app/services/assessment_service.py:141-149 | an analysis that came back as the fallback record makes the evaluation fail |
| AssessmentService.MirroredProfile | server/app/services/assessment_service.py:153-155 | the profile is written onto the candidate; nothing else about it and no other candidate changes |
| AssessmentService.MirroredKeepsTable | server/app/services/assessment_service.py:153-155 | the mirror keeps ids, emails and assessment links intact |
| AssessmentService.ReplacedKeepsTable | server/app/services/assessment_service.py:157 | storing the updated assessment keeps ids, links and well-formed responses |
| AssessmentService.SubmitResponse | server/app/services/assessment_service.py:94-159 | the method returns AssessmentService.Submission; a failure commits nothing; a success replaces the assessment in place with the upserted answers (the intended persistence, see Findings) and, from 5 keys on, mirrors the profile onto the candidate |
| AssessmentRoutes.ServiceErrorCode | server/app/routes/assessments.py:97-98 | the `ValueError` kinds become 400, every other failure 500 |
| AssessmentRoutes.ResumePath | server/app/routes/assessments.py:56-60 | the path lies under `uploads/resumes/` |
| AssessmentRoutes.ResumePathInjective | server/app/routes/assessments.py:60 | two uploads share a path only for the same user and file name |
| AssessmentRoutes.AssessmentAt | server/app/routes/assessments.py:66-68 | a row of the table is the one found by its id |
| AssessmentRoutes.UploadResume | server/app/routes/assessments.py:48-74 | no file or a non-`.pdf` name is 400 and a failed write 500, with no change; otherwise, with the corrected lookup (see Findings), the path is set on the latest assessment only, and the receipt names it |
| AssessmentRoutes.UploadResumeCodeAsWritten | server/app/routes/assessments.py:48-52 | the file checks answer 400 before any lookup |
| AssessmentRoutes.UploadResumeAsWrittenFails | server/app/routes/assessments.py:54-74 | as written, every PDF upload ends in 500 |
| AssessmentRoutes.CreateAssessmentEndpoint | server/app/routes/assessments.py:95-98 | 201 with the new assessment, or 400 with no change for an unknown candidate |
| AssessmentRoutes.Respond | server/app/schemas/assessment.py:20-41 | a returned assessment is answered 200 with it exactly when its result is absent, null or an object; otherwise the response model fails with 500 |
| AssessmentRoutes.CurrentFromLookup | server/app/routes/assessments.py:100-126 | the intended handler: 404 iff no assessment; 500 iff the lookup raised or the assessment fails the response model; otherwise 200 with it |
| AssessmentRoutes.CurrentFromLookupAsWritten | server/app/routes/assessments.py:100-126 | as written: 200 exactly when an assessment is found that passes the response model, 500 otherwise |
| AssessmentRoutes.CurrentAsWrittenHidesNotFound | server/app/routes/assessments.py:119-126 | as written, 404 never reaches the client; "no assessment" is 500 |
| AssessmentRoutes.CurrentAssessment | server/app/routes/assessments.py:100-124 | with the corrected lookup: 404 iff the user has no assessment, 500 iff the latest one fails the response model, otherwise 200 with it |
| AssessmentRoutes.CurrentAssessmentAsWrittenFails | server/app/routes/assessments.py:117-126 | as written, `GET /current` answers 500 on every input |
| AssessmentRoutes.ReadAssessment | server/app/routes/assessments.py:128-150 | 404 exactly when the id is unknown, 500 exactly when the assessment found fails the response model, otherwise 200 with it |
| AssessmentRoutes.StoredUnshapedIs500 | server/app/routes/assessments.py:128-150 | once an assessment whose result fails the response model is stored, reading it by id answers 500 |
| AssessmentRoutes.BareNumberProfileUnshaped | server/app/services/openrouter_service.py:136-142 | a profile reply without `{` that decodes to a number is stored as that number, which fails the response model |
| AssessmentRoutes.SubmitEndpoint | server/app/routes/assessments.py:171-208 | a missing API key is 500 with no change; a service error is 400 or 500 with no change; a successful submission is committed, then answered 200 with it or 500 when it fails the response model |
| AssessmentRoutes.SubmitCodes | server/app/routes/assessments.py:200-208 | an unknown assessment or question is 400; a 500 is always a failed model call |
| AssessmentRoutes.GetAssessmentResult | server/app/routes/assessments.py:210-239 | 404 iff unknown; 400 iff not completed or the result is null or empty; a 200 is exactly the stored, schema-shaped result |
| AssessmentRoutes.FallbackResultIs500 | server/app/routes/assessments.py:210-239 | a completed assessment holding the fallback record fails the response model with 500 |
| AssessmentRoutes.StoredResult | server/app/routes/assessments.py:229-239 | a stored completed, well-shaped result is returned by the result endpoint |
| AssessmentRoutes.SubmitThenResult | server/app/routes/assessments.py:229-239 | after a submission that completes the assessment with a well-shaped profile, the result endpoint returns exactly that profile |
| Auth.TokenClaims | server/app/routes/auth.py:27-42 | the caller's claims plus `exp`: `now + delta`, or `now + 15 min` for no delta or a zero delta; other claims unchanged |
| Auth.CreateAccessToken | server/app/routes/auth.py:27-44 | the token is the signature of the claims TokenClaims builds |
| Auth.CreatedTokenDecodes | server/app/routes/auth.py:27-44 | under a decoder that inverts the signer, the token decodes to the caller's claims plus `exp`: `now + delta`, or `now + 15 min` without a usable delta |
| Auth.Subject | server/app/routes/auth.py:111-116 | a subject exists iff `sub` is a string and any `exp` is an integer not before `now`, and it is the `sub` |
| Auth.UserByName | server/app/routes/auth.py:82 | the first account with the username, or none exactly when none has it |
| Auth.Registration | server/app/routes/auth.py:53-67 | refused iff the email or the username is taken; otherwise an active `user` account with the name, email and hash, and a fresh id |
| Auth.RegistrationKeepsAccounts | server/app/routes/auth.py:53-71 | a registration keeps usernames and emails unique and ids increasing |
| Auth.RegisterUser | server/app/routes/auth.py:46-73 | 400 with no change when taken; otherwise the account is appended and returned |
| Auth.Login | server/app/routes/auth.py:82-96 | 401 iff the username is unknown or the password does not verify; otherwise a bearer token for `sub = username` expiring in 30 minutes |
| Auth.CurrentUser | server/app/routes/auth.py:98-123 | 401 unless the token decodes, passes the claim checks and names an account; a success is that account |
| Auth.LoginClaims | server/app/routes/auth.py:91-94 | the login claims are exactly `sub` and `exp = now + 1800` |
| Auth.LoginTokenLifetime | server/app/routes/auth.py:91-121 | a login token resolves to the account that logged in exactly while the clock is within 30 minutes of issue |
| Auth.UserByNameAppend | server/app/routes/auth.py:69-82 | a newly appended username is found at its new row |
| Auth.RegisterThenLogin | server/app/routes/auth.py:53-96 | after registering, the account is found by its username and logs in with the same password |
| Auth.RegisterTwiceRefused | server/app/routes/auth.py:53-60 | a second registration of the same username is refused |

## Left out

- The HTTP transport to the language model, the prompts and the model name
  are not modelled. A model call is a parameter whose reply is none when
  the call raises.
- UpstreamFailure: a reply body that is not JSON would raise `ValueError`
  out of the transport, and the routes would map that to 400. The model
  collapses every transport failure into one error, answered with 500.
- `json.loads`, bcrypt, and jose's signature check and decoding are
  parameters. Of jose's claim checks, only those on `exp` and `sub` are
  modelled; `iat`, `nbf`, `aud`, `iss` and `jti` are not.
- Auth.Subject treats an `exp` that is not a JSON integer as a rejection.
  Python's `int()` accepts some such values, such as a digit string, and
  raises `TypeError` for others, such as null. Since only signed tokens
  reach this check, those cases need a forged token.
- Floating point is not modelled: JSON numbers are integers. `render`
  stands for Python's `str()` of a score or an explanation.
- `AssessmentResult` is checked only for the presence of its five keys,
  not for their value types.
- AssessmentRoutes.Respond lets through a `result` that is absent, null or
  a JSON object. Pydantic version 1 validates a `Dict` field by trying
  `dict(v)`, so it would also accept the empty string and an array whose
  items are all two-element arrays or two-character strings. That coercion
  is not modelled: the model answers 500 for such a result.
- `str.isdigit` and `str.isspace` are modelled on ASCII digits and on
  Python's whitespace set; Unicode digits outside ASCII are not.
  Text.ParseInt reads only the canonical decimal forms that `str(int)`
  produces. That covers every key the upsert writes.
- Negative `skip` and `limit` are left out: the parameters are natural
  numbers.
- Timestamps and sessions are not modelled; `commit`/`refresh` are
  modelled only for the `responses` column, below.
- AssessmentService.SubmitResponse, AssessmentService.Submitted and
  AssessmentService.SubmitStoresResponse state the stored dict as the code
  updates it in memory, the intended behaviour. As written, the `responses`
  column is a plain JSON column that does not track changes inside its
  value. Once the stored dict is non-empty, the submission changes it in
  place and assigns it back to itself, so the commit does not write it. Only
  the first answer is ever stored, and an assessment never reaches five
  stored answers across requests. AssessmentService.SubmittedAsWritten models
  this, and "Findings" has the row.
- A submission whose model call fails commits nothing: the session closes
  without a commit, so the upserted answer is discarded too.
- The file contents and the writing of the resume upload are left out. The
  model takes a flag saying whether the write succeeded. A missing upload
  is modelled as the handler's own 400, not the framework's 422.
- Request-body validation (the `EmailStr` format, required fields) is done
  by the framework before any handler runs. It is not modelled.
- `read_candidate_assessments` only returns
  AssessmentService.AssessmentsByCandidate, so it has no member of its own.
  `get_current_user_details` only returns Auth.CurrentUser.
- The token check that runs before every assessment endpoint is modelled
  once, as Auth.CurrentUser. The endpoint models start after it.
- Concurrency is not modelled. The uniqueness checks and the inserts are
  sequential per request, so there are no races between them.

## Findings

| source | as written | input that shows it | evidently intended | confidence | as-written member | corrected member |
|---|---|---|---|---|---|---|
| server/app/services/assessment_service.py:67 | filters on `Candidate.user_id`, but the candidate table (server/app/models/candidate.py:22-24) has no such attribute, so the query raises `AttributeError`; `GET /current` and every PDF upload then end in 500 | any user id, e.g. user 7 with candidate 1 and assessment 1 | the latest assessment of the candidate linked to the user | not executed | AssessmentService.LatestAsWrittenCounterexample | AssessmentService.LatestIsNewest |
| server/app/routes/assessments.py:117-126 | the "no assessment" 404 is raised inside the `try`, and `except Exception` turns it into 500 | a lookup that finds no assessment | 404 for a user without an assessment | not executed | AssessmentRoutes.CurrentAsWrittenHidesNotFound | AssessmentRoutes.CurrentAssessment |
| server/app/services/assessment_service.py:128-130 | `responses` is a plain JSON column (server/app/models/assessment.py:27) that does not track changes inside its value; once the stored dict is non-empty it is changed in place and assigned back to itself, so the commit at line 157 does not write it | a new assessment answered for question 1 and then question 2: only `{"1": ...}` is stored | every answer stored under `str(question_id)`, so that five answers complete the assessment | not executed | AssessmentService.SubmitAsWrittenCounterexample | AssessmentService.SubmitStoresResponse |
