/** The assessment endpoints: the status code each handler answers with,
    given the tables and the request, and the state change the resume
    upload and the submission make. Every endpoint first resolves the
    current user; that gate is modelled in the authentication module. */
module AssessmentRoutes {
  import opened Common
  import opened Text
  import opened JsonValue
  import opened Store
  import opened OpenRouter
  import opened CandidateService
  import opened AssessmentService

  /** The status an endpoint answers a service error with: the service's
      `ValueError`s become 400, anything else escapes as 500. */
  function ServiceErrorCode(e: Error): (code: int)
    ensures code == 400 <==> e in {CandidateNotFound, AssessmentNotFound, QuestionNotFound, DuplicateEmail, MalformedKey}
    ensures code == 400 || code == 500
  {
    match e
    case CandidateNotFound => 400
    case AssessmentNotFound => 400
    case QuestionNotFound => 400
    case DuplicateEmail => 400
    case MalformedKey => 400
    case UpstreamFailure => 500
    case IntegrityError => 500
    case MissingColumn => 500
  }

  // ---------------------------------------------------------------- resume upload

  /** The body `upload_resume` answers with. */
  datatype Receipt = Receipt(filename: string, filePath: string, assessmentId: Option<int>)

  /** `os.path.join("uploads", "resumes", f"{user_id}_{filename}")`; the file
      name starts with the decimal id, so it never restarts the path. */
  function ResumePath(userId: int, filename: string): (path: string)
    ensures |path| > |"uploads/resumes/"| && path[..|"uploads/resumes/"|] == "uploads/resumes/"
  {
    "uploads/resumes/" + IntToString(userId) + "_" + filename
  }

  /** Different users, or different files of one user, never share a path. */
  lemma ResumePathInjective(u1: int, f1: string, u2: int, f2: string)
    requires ResumePath(u1, f1) == ResumePath(u2, f2)
    ensures u1 == u2 && f1 == f2
  {
    var prefix := "uploads/resumes/";
    var n1, n2 := IntToString(u1), IntToString(u2);
    var t1, t2 := n1 + ['_'] + f1, n2 + ['_'] + f2;
    assert ResumePath(u1, f1) == prefix + t1;
    assert ResumePath(u2, f2) == prefix + t2;
    assert t1 == (prefix + t1)[|prefix|..];
    assert t2 == (prefix + t2)[|prefix|..];
    NoUnderscoreInNumber(u1);
    NoUnderscoreInNumber(u2);
    SplitAtFirst(n1, f1, n2, f2, '_');
    IntToStringInjective(u1, u2);
  }

  /** Text cut at the first separator determines both halves. */
  lemma SplitAtFirst(p1: string, f1: string, p2: string, f2: string, sep: char)
    requires sep !in p1 && sep !in p2
    requires p1 + [sep] + f1 == p2 + [sep] + f2
    ensures p1 == p2 && f1 == f2
  {
    JoinPrefixIndex(p1, f1, sep);
    JoinPrefixIndex(p2, f2, sep);
    var s := p1 + [sep] + f1;
    assert p1 == s[..|p1|] && p2 == s[..|p2|];
    assert f1 == s[|p1| + 1..] && f2 == s[|p2| + 1..];
  }

  lemma NoUnderscoreInNumber(n: int)
    ensures '_' !in IntToString(n)
  {
    var s := IntToString(n);
    forall k | 0 <= k < |s| ensures s[k] != '_' {
      if n < 0 && k > 0 {
        assert s[k] == s[1..][k - 1];
      }
    }
  }

  /** The assessment row a member of the table sits at. */
  lemma AssessmentAt(as_: seq<Assessment>, a: Assessment)
    requires IncreasingAssessmentIds(as_) && a in as_
    ensures AssessmentIndex(as_, a.id) < |as_| && as_[AssessmentIndex(as_, a.id)] == a
  {
    var k :| 0 <= k < |as_| && as_[k] == a;
    var i := AssessmentIndex(as_, a.id);
    assert forall j :: 0 <= j < k ==> as_[j].id < as_[k].id;
  }

  /** `upload_resume`. A missing file or a name that does not end in ".pdf"
      (case-sensitive) is refused with 400 before anything is written; a
      failed write is 500. Otherwise, with the corrected lookup (the code as
      written raises in it, see UploadResumeAsWrittenFails), the path is
      recorded on the user's latest assessment, when there is one. `written`
      says whether the file write succeeded. */
  method UploadResume(db: Database, userId: int, filename: Option<string>, written: bool) returns (o: Outcome<Receipt>)
    requires db.Valid()
    modifies db
    ensures db.Valid()
    ensures db.users == old(db.users) && db.candidates == old(db.candidates)
    ensures db.questions == old(db.questions)
    ensures filename.None? || !EndsWith(filename.value, ".pdf") ==>
      o == Failure(400) && db.assessments == old(db.assessments)
    ensures filename.Some? && EndsWith(filename.value, ".pdf") && !written ==>
      o == Failure(500) && db.assessments == old(db.assessments)
    ensures filename.Some? && EndsWith(filename.value, ".pdf") && written ==>
      var latest := LatestAssessmentByUser(old(db.candidates), old(db.assessments), userId);
      var path := ResumePath(userId, filename.value);
      && o == Success(200, Receipt(filename.value, path, if latest.Some? then Some(latest.value.id) else None))
      && (latest.None? ==> db.assessments == old(db.assessments))
      && (latest.Some? ==>
        db.assessments
        == old(db.assessments)[AssessmentIndex(old(db.assessments), latest.value.id) := latest.value.(resumePath := Some(path))])
  {
    if filename.None? {
      return Failure(400);
    }
    var f := filename.value;
    if !EndsWith(f, ".pdf") {
      return Failure(400);
    }
    if !written {
      return Failure(500);
    }
    var path := ResumePath(userId, f);
    var latest := LatestAssessmentByUser(db.candidates, db.assessments, userId);
    if latest.Some? {
      var a := latest.value;
      AssessmentAt(db.assessments, a);
      var i := AssessmentIndex(db.assessments, a.id);
      StoreAssessment(db, i, a.(resumePath := Some(path)));
      return Success(200, Receipt(f, path, Some(a.id)));
    }
    o := Success(200, Receipt(f, path, None));
  }

  /** `upload_resume` as written: after the file checks, the lookup of the
      latest assessment raises, and the blanket handler answers 500. */
  function UploadResumeCodeAsWritten(
    cs: seq<Candidate>, as_: seq<Assessment>, userId: int, filename: Option<string>, written: bool): (code: int)
    ensures filename.None? || !EndsWith(filename.value, ".pdf") ==> code == 400
  {
    if filename.None? || !EndsWith(filename.value, ".pdf") then 400
    else if !written then 500
    else match LatestAssessmentByUserAsWritten(cs, as_, userId)
      case Err(_) => 500
      case Ok(_) => 200
  }

  /** As written, no PDF upload ever succeeds. */
  lemma UploadResumeAsWrittenFails(
    cs: seq<Candidate>, as_: seq<Assessment>, userId: int, filename: Option<string>, written: bool)
    requires filename.Some? && EndsWith(filename.value, ".pdf")
    ensures UploadResumeCodeAsWritten(cs, as_, userId, filename, written) == 500
  {
    LatestAsWrittenAlwaysFails(cs, as_, userId);
  }

  // ---------------------------------------------------------------- creation and reads

  /** `POST /`: 201 with the new assessment, or 400 for an unknown candidate. */
  method CreateAssessmentEndpoint(db: Database, candidateId: int) returns (o: Outcome<Assessment>)
    requires db.Valid()
    modifies db
    ensures db.Valid()
    ensures db.users == old(db.users) && db.candidates == old(db.candidates)
    ensures db.questions == old(db.questions)
    ensures GetCandidate(old(db.candidates), candidateId).None? ==>
      o == Failure(400) && db.assessments == old(db.assessments)
    ensures GetCandidate(old(db.candidates), candidateId).Some? ==>
      o == Success(201, NewAssessment(old(db.assessments), candidateId))
      && db.assessments == old(db.assessments) + [o.value]
  {
    var r := CreateAssessment(db, candidateId);
    if r.Err? {
      return Failure(ServiceErrorCode(r.error));
    }
    o := Success(201, r.value);
  }

  /** The assessment passes `response_model=AssessmentResponse`: its
      `result` is `Optional[Dict[str, Any]]`, so it must be absent, a JSON
      `null` (read back as `None`) or an object; every other field has the
      declared type by construction. */
  predicate ResponseShaped(a: Assessment) {
    a.result.None? || a.result.value.Null? || a.result.value.Object?
  }

  /** The answer of a handler that returns `a` under `AssessmentResponse`:
      200 with it, or 500 when the response model refuses it. */
  function Respond(a: Assessment): (o: Outcome<Assessment>)
    ensures o.Success? <==> ResponseShaped(a)
    ensures o.Success? ==> o == Success(200, a)
    ensures o.Failure? ==> o.code == 500
  {
    if ResponseShaped(a) then Success(200, a) else Failure(500)
  }

  /** The handler of `GET /current` given what the lookup returned or
      raised, with the not-found answer the handler intends. */
  function CurrentFromLookup(lookup: Result<Option<Assessment>>): (o: Outcome<Assessment>)
    ensures o.code == 404 <==> lookup == Ok(None)
    ensures o.code == 500 <==> lookup.Err? || (lookup.Ok? && lookup.value.Some? && !ResponseShaped(lookup.value.value))
    ensures o.Success? <==> lookup.Ok? && lookup.value.Some? && ResponseShaped(lookup.value.value)
    ensures o.Success? ==> o.code == 200 && o.value == lookup.value.value
  {
    match lookup
    case Err(_) => Failure(500)
    case Ok(None) => Failure(404)
    case Ok(Some(a)) => Respond(a)
  }

  /** The handler of `GET /current` as written: the 404 is raised inside the
      `try`, whose `except Exception` turns it into a 500. */
  function CurrentFromLookupAsWritten(lookup: Result<Option<Assessment>>): (o: Outcome<Assessment>)
    ensures o.Success? <==> lookup.Ok? && lookup.value.Some? && ResponseShaped(lookup.value.value)
    ensures o.Success? ==> o.code == 200 && o.value == lookup.value.value
    ensures o.Failure? ==> o.code == 500
  {
    match lookup
    case Err(_) => Failure(500)
    // the 404 raised for "no assessment" is caught and re-raised as 500
    case Ok(None) => Failure(500)
    case Ok(Some(a)) => Respond(a)
  }

  /** As written, "no assessment" is never answered with 404. */
  lemma CurrentAsWrittenHidesNotFound(lookup: Result<Option<Assessment>>)
    ensures CurrentFromLookupAsWritten(lookup).code != 404
    ensures lookup == Ok(None) ==>
      CurrentFromLookupAsWritten(lookup) == Failure(500) && CurrentFromLookup(lookup) == Failure(404)
  {
  }

  /** `GET /current` with the intended lookup and the intended 404. */
  function CurrentAssessment(cs: seq<Candidate>, as_: seq<Assessment>, userId: int): (o: Outcome<Assessment>)
    ensures o.code == 404 <==> LatestAssessmentByUser(cs, as_, userId).None?
    ensures o.code == 500 <==>
      LatestAssessmentByUser(cs, as_, userId).Some? && !ResponseShaped(LatestAssessmentByUser(cs, as_, userId).value)
    ensures o.Success? ==> LatestAssessmentByUser(cs, as_, userId).Some? && o == Success(200, LatestAssessmentByUser(cs, as_, userId).value)
    ensures o.code == 200 || o.code == 404 || o.code == 500
  {
    CurrentFromLookup(Ok(LatestAssessmentByUser(cs, as_, userId)))
  }

  /** `GET /current` as written answers 500 on every input. */
  lemma CurrentAssessmentAsWrittenFails(cs: seq<Candidate>, as_: seq<Assessment>, userId: int)
    ensures CurrentFromLookupAsWritten(LatestAssessmentByUserAsWritten(cs, as_, userId)) == Failure(500)
  {
    LatestAsWrittenAlwaysFails(cs, as_, userId);
  }

  /** `GET /{id}`: 404 exactly when no assessment has the id, 500 when the
      one found fails the response model. */
  function ReadAssessment(as_: seq<Assessment>, id: int): (o: Outcome<Assessment>)
    ensures o.code == 404 <==> forall a :: a in as_ ==> a.id != id
    ensures o.code == 500 <==> exists a :: a in as_ && a.id == id && !ResponseShaped(a) && GetAssessment(as_, id) == Some(a)
    ensures o.Success? ==> o.code == 200 && o.value in as_ && o.value.id == id && ResponseShaped(o.value)
    ensures o.Failure? ==> o.code == 404 || o.code == 500
  {
    match GetAssessment(as_, id)
    case None => Failure(404)
    case Some(a) => Respond(a)
  }

  /** Once an assessment whose result fails the response model is stored
      over the row with its id, `GET /{id}` answers 500 for that id. */
  lemma StoredUnshapedIs500(as_: seq<Assessment>, id: int, b: Assessment)
    requires AssessmentIndex(as_, id) < |as_| && b.id == id && !ResponseShaped(b)
    ensures ReadAssessment(as_[AssessmentIndex(as_, id) := b], id) == Failure(500)
  {
    var as' := as_[AssessmentIndex(as_, id) := b];
    AssessmentIndexSameIds(as_, as', id);
    assert GetAssessment(as', id) == Some(b);
  }

  /** A profile reply without '{' that decodes to a number is stored as that
      number, which no assessment response can carry. */
  lemma BareNumberProfileUnshaped(a: Assessment, reply: string, loads: string -> Option<Json>, n: int)
    requires '{' !in reply && loads(reply) == Some(Number(n))
    ensures ExtractJson(reply, loads) == Number(n)
    ensures !ResponseShaped(a.(result := Some(ExtractJson(reply, loads))))
  {
  }

  // ---------------------------------------------------------------- submission

  /** `settings.OPENROUTER_API_KEY` is falsy: unset or empty. */
  predicate KeyMissing(apiKey: Option<string>) {
    apiKey.None? || apiKey.value == ""
  }

  /** `POST /{id}/submit`: 500 without an API key, before any state is
      touched; otherwise the service, with its `ValueError`s as 400. A
      submission the service commits is still answered with 500 when the
      stored result fails the response model. */
  method SubmitEndpoint(
    db: Database, apiKey: Option<string>, assessmentId: int, questionId: int, responseText: string,
    analyze: Analyzer, synthesize: Synthesizer) returns (o: Outcome<Assessment>)
    requires db.Valid()
    modifies db
    ensures db.Valid()
    ensures db.users == old(db.users) && db.questions == old(db.questions)
    ensures KeyMissing(apiKey) ==>
      o == Failure(500) && db.assessments == old(db.assessments) && db.candidates == old(db.candidates)
    ensures !KeyMissing(apiKey) ==>
      var s := Submission(old(db.assessments), old(db.questions), assessmentId, questionId, responseText, analyze, synthesize);
      && (s.Err? ==> o == Failure(ServiceErrorCode(s.error)))
      && (s.Ok? ==> o == Respond(s.value))
      && (s.Err? ==> db.assessments == old(db.assessments) && db.candidates == old(db.candidates))
      && (s.Ok? ==>
        db.assessments == old(db.assessments)[AssessmentIndex(old(db.assessments), assessmentId) := s.value]
        && db.candidates ==
          (if |s.value.responses| >= CompletionThreshold
           then Mirrored(old(db.candidates), s.value.candidateId, s.value.result)
           else old(db.candidates)))
  {
    if KeyMissing(apiKey) {
      return Failure(500);
    }
    var r := SubmitResponse(db, assessmentId, questionId, responseText, analyze, synthesize);
    if r.Err? {
      return Failure(ServiceErrorCode(r.error));
    }
    o := Respond(r.value);
  }

  /** The submission answers 400 for an unknown assessment or question and
      500 for a failed model call or synthesis. */
  lemma SubmitCodes(
    as_: seq<Assessment>, qs: seq<Question>, assessmentId: int, questionId: int, responseText: string,
    analyze: Analyzer, synthesize: Synthesizer)
    requires forall i :: 0 <= i < |as_| ==> WellFormedResponses(as_[i])
    ensures var s := Submission(as_, qs, assessmentId, questionId, responseText, analyze, synthesize);
      && (GetAssessment(as_, assessmentId).None? ==> s.Err? && ServiceErrorCode(s.error) == 400)
      && (QuestionById(qs, questionId).None? ==> s.Err? && ServiceErrorCode(s.error) == 400)
      && (s.Err? && ServiceErrorCode(s.error) == 500 ==> s.error == UpstreamFailure)
  {
    var i := AssessmentIndex(as_, assessmentId);
    if i < |as_| && QuestionById(qs, questionId).Some? {
      var u := Upserted(as_[i], questionId, responseText);
      UpsertWellFormed(as_[i], questionId, responseText);
      AnalysesErrors(u.responses, qs, analyze);
    }
  }

  // ---------------------------------------------------------------- results

  /** The keys `AssessmentResult` requires. */
  const ResultKeys: seq<string> := ["big_five", "mbti", "strengths", "weaknesses", "career_recommendations"]

  /** The stored result passes `response_model=AssessmentResult`: it is an
      object carrying every required key. */
  predicate ResultShaped(j: Json) {
    j.Object? && forall k :: k in ResultKeys ==> k in j.fields
  }

  /** `GET /{id}/result`: 404 for an unknown id; 400 unless the assessment
      is completed with a truthy result; 500 when the result fails the
      response model; otherwise exactly the stored result. */
  function GetAssessmentResult(as_: seq<Assessment>, id: int): (o: Outcome<Json>)
    ensures o.code == 404 <==> GetAssessment(as_, id).None?
    ensures o.code == 400 <==>
      (GetAssessment(as_, id).Some? &&
       (GetAssessment(as_, id).value.status != Completed || GetAssessment(as_, id).value.result.None?
        || !Truthy(GetAssessment(as_, id).value.result.value)))
    ensures o.Success? ==>
      (o.code == 200 && Some(o.value) == GetAssessment(as_, id).value.result && ResultShaped(o.value))
  {
    match GetAssessment(as_, id)
    case None => Failure(404)
    case Some(a) =>
      if a.status != Completed || a.result.None? || !Truthy(a.result.value) then Failure(400)
      else if !ResultShaped(a.result.value) then Failure(500)
      else Success(200, a.result.value)
  }

  /** A completed assessment whose profile came back undecodable holds the
      fallback record, which is truthy but fails the response model. */
  lemma FallbackResultIs500(as_: seq<Assessment>, id: int, raw: string)
    requires GetAssessment(as_, id).Some?
    requires GetAssessment(as_, id).value.status == Completed
    requires GetAssessment(as_, id).value.result == Some(Fallback(raw))
    ensures GetAssessmentResult(as_, id) == Failure(500)
  {
    var f := Fallback(raw);
    assert "error" in f.fields;
    assert "big_five" in ResultKeys && "big_five" !in f.fields;
  }

  /** After a submission that completes the assessment with a well-shaped
      profile, the result endpoint answers 200 with exactly that profile. */
  lemma SubmitThenResult(
    as_: seq<Assessment>, qs: seq<Question>, assessmentId: int, questionId: int, responseText: string,
    analyze: Analyzer, synthesize: Synthesizer, b: Assessment)
    requires Submission(as_, qs, assessmentId, questionId, responseText, analyze, synthesize) == Ok(b)
    requires |b.responses| >= CompletionThreshold && b.result.Some? && ResultShaped(b.result.value)
    ensures GetAssessmentResult(as_[AssessmentIndex(as_, assessmentId) := b], assessmentId) == Success(200, b.result.value)
  {
    var i := AssessmentIndex(as_, assessmentId);
    SubmissionIs(as_, qs, assessmentId, questionId, responseText, analyze, synthesize);
    StoredResult(as_, assessmentId, b);
  }

  /** Storing a completed, well-shaped assessment over the row with its id
      makes the result endpoint return exactly its result. */
  lemma StoredResult(as_: seq<Assessment>, id: int, b: Assessment)
    requires AssessmentIndex(as_, id) < |as_| && b.id == id
    requires b.status == Completed && b.result.Some? && ResultShaped(b.result.value)
    ensures GetAssessmentResult(as_[AssessmentIndex(as_, id) := b], id) == Success(200, b.result.value)
  {
    var i := AssessmentIndex(as_, id);
    var as' := as_[i := b];
    AssessmentIndexSameIds(as_, as', id);
    assert GetAssessment(as', id) == Some(b);
    assert "big_five" in b.result.value.fields;
    assert Truthy(b.result.value);
  }
}
