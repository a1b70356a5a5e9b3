/** The assessment service: opening an assessment for a candidate, the
    lookups by id, by candidate and by account, and the submission of one
    answer, which recomputes the personality profile once enough questions
    are answered. */
module AssessmentService {
  import opened Common
  import opened Text
  import opened JsonValue
  import opened Dict
  import opened Store
  import opened OpenRouter
  import opened CandidateService

  /** Distinct answered questions needed before a profile is computed. */
  const CompletionThreshold := 5

  // ---------------------------------------------------------------- creation

  /** The row `create_assessment` inserts: in progress, no answers, no result. */
  function NewAssessment(as_: seq<Assessment>, candidateId: int): Assessment {
    Assessment(NextAssessmentId(as_), candidateId, InProgress, [], None, None)
  }

  /** `create_assessment`: refused for an unknown candidate; otherwise a new
      assessment is appended under the next id. */
  method CreateAssessment(db: Database, candidateId: int) returns (r: Result<Assessment>)
    requires db.Valid()
    modifies db
    ensures db.Valid()
    ensures db.users == old(db.users) && db.candidates == old(db.candidates)
    ensures db.questions == old(db.questions)
    ensures GetCandidate(old(db.candidates), candidateId).None? ==>
      r == Err(CandidateNotFound) && db.assessments == old(db.assessments)
    ensures GetCandidate(old(db.candidates), candidateId).Some? ==>
      r == Ok(NewAssessment(old(db.assessments), candidateId))
      && db.assessments == old(db.assessments) + [r.value]
  {
    var candidate := GetCandidate(db.candidates, candidateId);
    if candidate.None? {
      return Err(CandidateNotFound);
    }
    var a := NewAssessment(db.assessments, candidateId);
    CreatedKeepsTable(db.candidates, db.assessments, candidateId);
    db.assessments := db.assessments + [a];
    r := Ok(a);
  }

  /** Appending the new assessment keeps ids increasing, the candidate link
      and the response keys well formed. */
  lemma CreatedKeepsTable(cs: seq<Candidate>, as_: seq<Assessment>, candidateId: int)
    requires IncreasingAssessmentIds(as_)
    requires CandidateIndex(cs, candidateId) < |cs|
    requires forall i :: 0 <= i < |as_| ==> CandidateIndex(cs, as_[i].candidateId) < |cs|
    requires forall i :: 0 <= i < |as_| ==> WellFormedResponses(as_[i])
    ensures var as' := as_ + [NewAssessment(as_, candidateId)];
      && IncreasingAssessmentIds(as')
      && (forall i :: 0 <= i < |as'| ==> CandidateIndex(cs, as'[i].candidateId) < |cs|)
      && (forall i :: 0 <= i < |as'| ==> WellFormedResponses(as'[i]))
  {
    var a := NewAssessment(as_, candidateId);
    AssessmentIndexFresh(as_, a);
    var as' := as_ + [a];
    forall i | 0 <= i < |as'| ensures CandidateIndex(cs, as'[i].candidateId) < |cs| && WellFormedResponses(as'[i]) {
      if i < |as_| {
        assert as'[i] == as_[i];
      }
    }
  }

  /** A new assessment is found under its id and is consistent. */
  lemma CreatedIsFound(as_: seq<Assessment>, candidateId: int)
    requires IncreasingAssessmentIds(as_)
    ensures var a := NewAssessment(as_, candidateId);
      && GetAssessment(as_ + [a], a.id) == Some(a)
      && a.candidateId == candidateId && a.status == InProgress
      && a.responses == [] && a.result.None?
      && Consistent(a)
  {
    AssessmentIndexFresh(as_, NewAssessment(as_, candidateId));
  }

  // ---------------------------------------------------------------- queries

  /** `get_assessment`: the row with this id. */
  function GetAssessment(as_: seq<Assessment>, id: int): (r: Option<Assessment>)
    ensures r.Some? ==> r.value in as_ && r.value.id == id
    ensures r.None? <==> forall a :: a in as_ ==> a.id != id
  {
    var i := AssessmentIndex(as_, id);
    if i < |as_| then Some(as_[i]) else None
  }

  /** `get_assessments_by_candidate`: the candidate's assessments, in table order. */
  function AssessmentsByCandidate(as_: seq<Assessment>, candidateId: int): (r: seq<Assessment>)
    ensures |r| <= |as_|
    ensures forall a :: a in r <==> a in as_ && a.candidateId == candidateId
    ensures IncreasingAssessmentIds(as_) ==> IncreasingAssessmentIds(r)
  {
    if |as_| == 0 then []
    else
      var n := |as_|;
      var prev := AssessmentsByCandidate(as_[..n - 1], candidateId);
      var last := as_[n - 1];
      assert forall a :: a in as_ <==> a in as_[..n - 1] || a == last by {
        assert as_ == as_[..n - 1] + [last];
      }
      if last.candidateId == candidateId then
        assert IncreasingAssessmentIds(as_) ==> forall i :: 0 <= i < |prev| ==> prev[i].id < last.id by {
          if IncreasingAssessmentIds(as_) {
            forall i | 0 <= i < |prev| ensures prev[i].id < last.id {
              assert prev[i] in as_[..n - 1];
              var k :| 0 <= k < n - 1 && as_[k] == prev[i];
            }
          }
        }
        prev + [last]
      else prev
  }

  /** `order_by(Assessment.id.desc()).first()`: the row with the largest id. */
  function Newest(as_: seq<Assessment>): (r: Option<Assessment>)
    ensures r.None? <==> |as_| == 0
    ensures r.Some? ==> r.value in as_ && forall a :: a in as_ ==> a.id <= r.value.id
  {
    if |as_| == 0 then None
    else
      var n := |as_|;
      var last := as_[n - 1];
      assert forall a :: a in as_ <==> a in as_[..n - 1] || a == last by {
        assert as_ == as_[..n - 1] + [last];
      }
      match Newest(as_[..n - 1])
      case None => Some(last)
      case Some(b) => if b.id < last.id then Some(last) else Some(b)
  }

  /** Position of the first candidate linked to the account, or `|cs|`. */
  function LinkedIndex(cs: seq<Candidate>, userId: int): (i: nat)
    ensures i <= |cs|
    ensures i < |cs| ==> cs[i].userId == Some(userId)
    ensures forall k :: 0 <= k < i ==> cs[k].userId != Some(userId)
  {
    if |cs| == 0 then 0 else if cs[0].userId == Some(userId) then 0 else 1 + LinkedIndex(cs[1..], userId)
  }

  /** `get_latest_assessment_by_user`, with the candidate-to-account link the
      query intends: the first candidate linked to the account, then that
      candidate's assessment with the largest id. */
  function LatestAssessmentByUser(cs: seq<Candidate>, as_: seq<Assessment>, userId: int): (r: Option<Assessment>)
    ensures (forall c :: c in cs ==> c.userId != Some(userId)) ==> r.None?
    ensures r.Some? ==> r.value in as_
    ensures r.Some? ==> exists c :: c in cs && c.userId == Some(userId) && r.value.candidateId == c.id
  {
    var i := LinkedIndex(cs, userId);
    if i == |cs| then None else Newest(AssessmentsByCandidate(as_, cs[i].id))
  }

  /** The link picks the first linked candidate; among its assessments none
      has a larger id, and there is none exactly when it has no assessment. */
  lemma LatestIsNewest(cs: seq<Candidate>, as_: seq<Assessment>, userId: int, i: nat)
    requires i < |cs| && cs[i].userId == Some(userId)
    requires forall k :: 0 <= k < i ==> cs[k].userId != Some(userId)
    ensures var r := LatestAssessmentByUser(cs, as_, userId);
      && (r.None? <==> forall a :: a in as_ ==> a.candidateId != cs[i].id)
      && (r.Some? ==> r.value.candidateId == cs[i].id)
      && (r.Some? ==> forall a :: a in as_ && a.candidateId == cs[i].id ==> a.id <= r.value.id)
  {
    var j := LinkedIndex(cs, userId);
    assert j == i;
    var mine := AssessmentsByCandidate(as_, cs[i].id);
    if |mine| > 0 {
      assert mine[0] in as_ && mine[0].candidateId == cs[i].id;
    }
  }

  /** The attributes of the mapped candidate class: its columns, the ones
      every table inherits, and the relationship to assessments. */
  const CandidateAttributes: set<string> :=
    {"id", "created_at", "updated_at", "name", "email", "personality_profile", "assessments"}

  /** `get_latest_assessment_by_user` as written: the filter names
      `Candidate.user_id`, which the mapped class does not have, so the
      query raises before it reaches the database. */
  function LatestAssessmentByUserAsWritten(cs: seq<Candidate>, as_: seq<Assessment>, userId: int)
    : (r: Result<Option<Assessment>>)
    ensures r.Err? <==> "user_id" !in CandidateAttributes
    ensures r.Err? ==> r.error == MissingColumn
    ensures r.Ok? ==> r.value == LatestAssessmentByUser(cs, as_, userId)
  {
    if "user_id" in CandidateAttributes then Ok(LatestAssessmentByUser(cs, as_, userId))
    else Err(MissingColumn)
  }

  /** As written, the lookup fails on every input, even where the intended
      query finds an assessment. */
  lemma LatestAsWrittenAlwaysFails(cs: seq<Candidate>, as_: seq<Assessment>, userId: int)
    ensures LatestAssessmentByUserAsWritten(cs, as_, userId) == Err(MissingColumn)
  {
    assert "user_id" != "id" && "user_id" != "name" && "user_id" != "email";
    assert "user_id" != "created_at" && "user_id" != "updated_at";
    assert "user_id" != "personality_profile" && "user_id" != "assessments";
  }

  /** A linked candidate with one assessment: the intended query finds it,
      the query as written raises. */
  lemma LatestAsWrittenCounterexample()
    ensures var c := Candidate(1, "Ada", "ada@example.com", None, Some(7));
      var a := Assessment(1, 1, InProgress, [], None, None);
      && LatestAssessmentByUser([c], [a], 7) == Some(a)
      && LatestAssessmentByUserAsWritten([c], [a], 7) == Err(MissingColumn)
  {
    var c := Candidate(1, "Ada", "ada@example.com", None, Some(7));
    var a := Assessment(1, 1, InProgress, [], None, None);
    LatestAsWrittenAlwaysFails([c], [a], 7);
    assert LinkedIndex([c], 7) == 0;
    assert AssessmentsByCandidate([a], 1) == [a] by {
      assert [a][..0] == [];
    }
    assert Newest([a]) == Some(a) by {
      assert [a][..0] == [];
    }
  }

  // ---------------------------------------------------------------- submission

  /** `analyze_response` of the injected OpenRouter service: the analysis of
      one answer from the question text, the answer and the trait, or
      `None` where the call raises. */
  type Analyzer = (string, string, string) -> Option<Json>

  /** `generate_personality_profile` of the injected OpenRouter service:
      the profile for a trait-keyed analysis map, or `None` where it raises. */
  type Synthesizer = Dict<string, Json> -> Option<Json>

  /** The analyzer of `OpenRouterService` talking to `model`. */
  function AnalyzerOf(model: (string, string, string) -> Option<string>, loads: string -> Option<Json>): Analyzer {
    (question: string, response: string, traitCategory: string) =>
      AnalyzeResponse(question, response, traitCategory, model, loads)
  }

  /** The profile synthesis of `OpenRouterService` talking to `model`. */
  function SynthesizerOf(render: Json -> string, model: string -> Option<string>, loads: string -> Option<Json>)
    : Synthesizer
  {
    (analyses: Dict<string, Json>) => GeneratePersonalityProfile(analyses, render, model, loads)
  }

  /** The lifecycle invariant: an assessment is completed exactly when it
      holds enough answers, and it has a result exactly when it is completed. */
  predicate Consistent(a: Assessment) {
    && (a.status == Completed <==> |a.responses| >= CompletionThreshold)
    && (a.result.Some? <==> a.status == Completed)
  }

  /** `responses[str(question_id)] = response_text`. */
  function Upserted(a: Assessment, questionId: int, responseText: string): Assessment {
    a.(responses := Put(a.responses, IntToString(questionId), responseText))
  }

  /** One iteration of the analysis loop: `int(key)` (which raises on a key
      that is not a decimal), the question lookup (a missing question is
      skipped), the model call (which may raise), and the write of the
      analysis under the question's trait. */
  function AnalysisStep(
    acc: Result<Dict<string, Json>>, entry: (string, string), qs: seq<Question>, analyze: Analyzer)
    : Result<Dict<string, Json>>
  {
    match acc
    case Err(e) => Err(e)
    case Ok(d) =>
      match ParseInt(entry.0)
      case None => Err(MalformedKey)
      case Some(qid) =>
        match QuestionById(qs, qid)
        case None => Ok(d)
        case Some(q) =>
          match analyze(q.text, entry.1, q.traitCategory)
          case None => Err(UpstreamFailure)
          case Some(x) => Ok(Put(d, q.traitCategory, x))
  }

  /** The analysis map the loop over `responses.items()` builds, or the
      first error it raises. */
  function Analyses(responses: Dict<string, string>, qs: seq<Question>, analyze: Analyzer)
    : Result<Dict<string, Json>>
  {
    if |responses| == 0 then Ok([])
    else AnalysisStep(Analyses(responses[..|responses| - 1], qs, analyze), responses[|responses| - 1], qs, analyze)
  }

  lemma AnalysesSnoc(responses: Dict<string, string>, j: nat, qs: seq<Question>, analyze: Analyzer)
    requires j < |responses|
    ensures Analyses(responses[..j + 1], qs, analyze)
      == AnalysisStep(Analyses(responses[..j], qs, analyze), responses[j], qs, analyze)
  {
    assert responses[..j + 1][..j] == responses[..j];
  }

  /** Once the loop has raised, the later entries do not matter. */
  lemma {:induction false} AnalysesErrPersists(responses: Dict<string, string>, k: nat, qs: seq<Question>, analyze: Analyzer)
    requires k <= |responses| && Analyses(responses[..k], qs, analyze).Err?
    ensures Analyses(responses, qs, analyze) == Analyses(responses[..k], qs, analyze)
    decreases |responses| - k
  {
    if k < |responses| {
      AnalysesSnoc(responses, k, qs, analyze);
      AnalysesErrPersists(responses, k + 1, qs, analyze);
    } else {
      assert responses[..k] == responses;
    }
  }

  /** The entry answers a question that exists and belongs to the trait. */
  predicate Answers(entry: (string, string), qs: seq<Question>, traitCategory: string) {
    var k := ParseInt(entry.0);
    k.Some? && QuestionById(qs, k.value).Some? && QuestionById(qs, k.value).value.traitCategory == traitCategory
  }

  /** The position of the last entry answering a question of the trait, or -1. */
  function LastAnswer(responses: Dict<string, string>, qs: seq<Question>, traitCategory: string): (r: int)
    ensures -1 <= r < |responses|
    ensures r >= 0 ==> Answers(responses[r], qs, traitCategory)
    ensures forall k :: r < k < |responses| ==> !Answers(responses[k], qs, traitCategory)
  {
    if |responses| == 0 then -1
    else if Answers(responses[|responses| - 1], qs, traitCategory) then |responses| - 1
    else LastAnswer(responses[..|responses| - 1], qs, traitCategory)
  }

  /** The entry can be analysed: its key is a decimal, and when its question
      exists the model answers for it. */
  predicate Analyzable(entry: (string, string), qs: seq<Question>, analyze: Analyzer) {
    var k := ParseInt(entry.0);
    k.Some? && (QuestionById(qs, k.value).Some? ==>
      var q := QuestionById(qs, k.value).value;
      analyze(q.text, entry.1, q.traitCategory).Some?)
  }

  /** One iteration keeps the loop going exactly when it had not raised and
      its entry can be analysed. */
  lemma AnalysisStepOk(acc: Result<Dict<string, Json>>, entry: (string, string), qs: seq<Question>, analyze: Analyzer)
    ensures AnalysisStep(acc, entry, qs, analyze).Ok? <==> acc.Ok? && Analyzable(entry, qs, analyze)
  {
  }

  /** The loop succeeds exactly when every entry can be analysed. */
  lemma {:induction false} AnalysesOk(responses: Dict<string, string>, qs: seq<Question>, analyze: Analyzer)
    ensures Analyses(responses, qs, analyze).Ok? <==>
      forall i :: 0 <= i < |responses| ==> Analyzable(responses[i], qs, analyze)
  {
    if |responses| > 0 {
      var n := |responses|;
      var init, last := responses[..n - 1], responses[n - 1];
      AnalysesOk(init, qs, analyze);
      AnalysisStepOk(Analyses(init, qs, analyze), last, qs, analyze);
      LastSplit(responses);
      var all := forall i :: 0 <= i < n ==> Analyzable(responses[i], qs, analyze);
      var before := forall i :: 0 <= i < n - 1 ==> Analyzable(init[i], qs, analyze);
      assert all ==> before && Analyzable(last, qs, analyze) by {
        if all {
          forall i | 0 <= i < n - 1 ensures Analyzable(init[i], qs, analyze) {
            assert init[i] == responses[i];
          }
        }
      }
      assert before && Analyzable(last, qs, analyze) ==> all by {
        if before && Analyzable(last, qs, analyze) {
          forall i | 0 <= i < n ensures Analyzable(responses[i], qs, analyze) {
            if i < n - 1 {
              assert init[i] == responses[i];
            }
          }
        }
      }
    }
  }

  /** The loop raises only on a key that is not a decimal or on a failed
      model call; with decimal keys only, `int(key)` never raises. */
  lemma {:induction false} AnalysesErrors(responses: Dict<string, string>, qs: seq<Question>, analyze: Analyzer)
    ensures Analyses(responses, qs, analyze).Err? ==>
      Analyses(responses, qs, analyze).error in {MalformedKey, UpstreamFailure}
    ensures (forall i :: 0 <= i < |responses| ==> ParseInt(responses[i].0).Some?) ==>
      Analyses(responses, qs, analyze) != Err(MalformedKey)
  {
    if |responses| > 0 {
      var n := |responses|;
      var init := responses[..n - 1];
      assert forall i :: 0 <= i < n - 1 ==> init[i] == responses[i];
      AnalysesErrors(init, qs, analyze);
    }
  }

  /** The analysis map holds one entry per trait of an answered question
      that still exists, and that entry is the analysis of the last answer
      to a question of the trait: later answers overwrite earlier ones. */
  lemma {:induction false} AnalysesByTrait(
    responses: Dict<string, string>, qs: seq<Question>, analyze: Analyzer, traitCategory: string)
    requires Analyses(responses, qs, analyze).Ok?
    ensures UniqueKeys(Analyses(responses, qs, analyze).value)
    ensures var d, i := Analyses(responses, qs, analyze).value, LastAnswer(responses, qs, traitCategory);
      && (i < 0 ==> Get(d, traitCategory).None?)
      && (i >= 0 ==>
        Get(d, traitCategory)
        == analyze(QuestionById(qs, ParseInt(responses[i].0).value).value.text, responses[i].1, traitCategory))
  {
    if |responses| > 0 {
      var n := |responses|;
      var init, last := responses[..n - 1], responses[n - 1];
      assert forall i :: 0 <= i < n - 1 ==> init[i] == responses[i];
      var acc := Analyses(init, qs, analyze);
      assert acc.Ok?;
      AnalysesByTrait(init, qs, analyze, traitCategory);
      var d := acc.value;
      var qid := ParseInt(last.0).value;
      match QuestionById(qs, qid)
      case None =>
      case Some(q) =>
        var x := analyze(q.text, last.1, q.traitCategory).value;
        PutKeepsUniqueKeys(d, q.traitCategory, x);
        if q.traitCategory == traitCategory {
          GetPutSame(d, q.traitCategory, x);
        } else {
          GetPutOther(d, q.traitCategory, x, traitCategory);
        }
    } else {
      assert Get<string, Json>([], traitCategory).None?;
    }
  }

  /** The profile computed from the assessment's answers, or the error the
      loop or the synthesis raises. */
  function Evaluated(responses: Dict<string, string>, qs: seq<Question>, analyze: Analyzer, synthesize: Synthesizer)
    : (r: Result<Json>)
    ensures r.Err? ==> r.error == MalformedKey || r.error == UpstreamFailure
  {
    AnalysesErrors(responses, qs, analyze);
    match Analyses(responses, qs, analyze)
    case Err(e) => Err(e)
    case Ok(d) =>
      match synthesize(d)
      case None => Err(UpstreamFailure)
      case Some(p) => Ok(p)
  }

  /** The assessment after one answer: the upsert, then at five or more
      answers completion and a freshly computed profile. */
  function Submitted(
    a: Assessment, qs: seq<Question>, questionId: int, responseText: string,
    analyze: Analyzer, synthesize: Synthesizer): (r: Result<Assessment>)
    ensures r.Err? ==> r.error == MalformedKey || r.error == UpstreamFailure
    ensures r.Ok? ==>
      && r.value.responses == Put(a.responses, IntToString(questionId), responseText)
      && r.value.id == a.id && r.value.candidateId == a.candidateId && r.value.resumePath == a.resumePath
      && (|r.value.responses| >= CompletionThreshold ==> r.value.status == Completed && r.value.result.Some?)
      && (|r.value.responses| < CompletionThreshold ==> r.value.status == a.status && r.value.result == a.result)
  {
    var u := Upserted(a, questionId, responseText);
    if |u.responses| < CompletionThreshold then Ok(u)
    else
      match Evaluated(u.responses, qs, analyze, synthesize)
      case Err(e) => Err(e)
      case Ok(p) => Ok(u.(status := Completed, result := Some(p)))
  }

  /** `submit_response` on the tables: the assessment must exist, then the
      question must exist, then the answer is recorded. */
  function Submission(
    as_: seq<Assessment>, qs: seq<Question>, assessmentId: int, questionId: int, responseText: string,
    analyze: Analyzer, synthesize: Synthesizer): (r: Result<Assessment>)
    ensures r == Err(AssessmentNotFound) <==> GetAssessment(as_, assessmentId).None?
    ensures r == Err(QuestionNotFound) <==>
      GetAssessment(as_, assessmentId).Some? && QuestionById(qs, questionId).None?
    ensures r.Ok? ==> GetAssessment(as_, assessmentId).Some? && r.value.id == assessmentId
  {
    var i := AssessmentIndex(as_, assessmentId);
    if i == |as_| then Err(AssessmentNotFound)
    else if QuestionById(qs, questionId).None? then Err(QuestionNotFound)
    else
      Submitted(as_[i], qs, questionId, responseText, analyze, synthesize)
  }

  /** Submission is an upsert: the answer is stored under `str(question_id)`,
      every other key keeps its answer, the count grows by at most one, and
      the assessment keeps its id, candidate and resume. */
  lemma SubmitStoresResponse(
    a: Assessment, qs: seq<Question>, questionId: int, responseText: string,
    analyze: Analyzer, synthesize: Synthesizer)
    requires Submitted(a, qs, questionId, responseText, analyze, synthesize).Ok?
    ensures var b := Submitted(a, qs, questionId, responseText, analyze, synthesize).value;
      && Get(b.responses, IntToString(questionId)) == Some(responseText)
      && (forall k :: k != IntToString(questionId) ==> Get(b.responses, k) == Get(a.responses, k))
      && |a.responses| <= |b.responses| <= |a.responses| + 1
      && (IntToString(questionId) in Keys(a.responses) ==> |b.responses| == |a.responses|)
      && b.id == a.id && b.candidateId == a.candidateId && b.resumePath == a.resumePath
  {
    var key := IntToString(questionId);
    GetPutSame(a.responses, key, responseText);
    forall k | k != key ensures Get(Put(a.responses, key, responseText), k) == Get(a.responses, k) {
      GetPutOther(a.responses, key, responseText, k);
    }
  }

  /** Below five answers only the answer is recorded: status and result stay
      as they were, and no model is called, so the submission cannot fail. */
  lemma SubmitBelowThreshold(
    a: Assessment, qs: seq<Question>, questionId: int, responseText: string,
    analyze: Analyzer, synthesize: Synthesizer)
    requires |Upserted(a, questionId, responseText).responses| < CompletionThreshold
    ensures Submitted(a, qs, questionId, responseText, analyze, synthesize).Ok?
    ensures var b := Submitted(a, qs, questionId, responseText, analyze, synthesize).value;
      b.status == a.status && b.result == a.result
  {
  }

  /** From five answers on, every submission (a repeated answer included)
      recomputes the profile from all answers and completes the assessment;
      it fails exactly when that computation fails. */
  lemma SubmitAtThreshold(
    a: Assessment, qs: seq<Question>, questionId: int, responseText: string,
    analyze: Analyzer, synthesize: Synthesizer)
    requires |Upserted(a, questionId, responseText).responses| >= CompletionThreshold
    ensures var r, e := Submitted(a, qs, questionId, responseText, analyze, synthesize),
      Evaluated(Upserted(a, questionId, responseText).responses, qs, analyze, synthesize);
      && (r.Ok? <==> e.Ok?)
      && (r.Err? ==> r.error == e.error)
      && (r.Ok? ==> r.value.status == Completed && r.value.result == Some(e.value))
  {
  }

  /** A completed assessment never returns to in progress. */
  lemma SubmitNeverReopens(
    a: Assessment, qs: seq<Question>, questionId: int, responseText: string,
    analyze: Analyzer, synthesize: Synthesizer)
    requires a.status == Completed
    requires Submitted(a, qs, questionId, responseText, analyze, synthesize).Ok?
    ensures Submitted(a, qs, questionId, responseText, analyze, synthesize).value.status == Completed
  {
  }

  /** Creation and submission keep the lifecycle invariant. */
  lemma SubmitKeepsConsistent(
    a: Assessment, qs: seq<Question>, questionId: int, responseText: string,
    analyze: Analyzer, synthesize: Synthesizer)
    requires Consistent(a)
    requires Submitted(a, qs, questionId, responseText, analyze, synthesize).Ok?
    ensures Consistent(Submitted(a, qs, questionId, responseText, analyze, synthesize).value)
  {
    var key := IntToString(questionId);
    assert |a.responses| <= |Put(a.responses, key, responseText)|;
  }

  /** The upsert keeps the response keys distinct and decimal. */
  lemma UpsertWellFormed(a: Assessment, questionId: int, responseText: string)
    requires WellFormedResponses(a)
    ensures WellFormedResponses(Upserted(a, questionId, responseText))
  {
    var key := IntToString(questionId);
    var d := Put(a.responses, key, responseText);
    PutKeepsUniqueKeys(a.responses, key, responseText);
    ParseIntOfIntToString(questionId);
    forall i | 0 <= i < |d| ensures ParseInt(d[i].0).Some? {
      assert d[i].0 == Keys(d)[i];
      if i < |a.responses| {
        assert Keys(d)[i] == Keys(a.responses)[i] == a.responses[i].0;
      }
    }
  }

  /** The assessment the commit stores, and the refresh reads back, after a
      successful submission as written. The `responses` column is plain JSON,
      which does not track changes made inside its value. `assessment.responses
      or {}` starts a new dict only when the stored one is empty; otherwise the
      loaded dict is changed in place and assigned back to itself, the column
      sees no change, and the stored answers stay as they were. Status and
      result are assigned new values and are written. */
  function SubmittedAsWritten(
    a: Assessment, qs: seq<Question>, questionId: int, responseText: string,
    analyze: Analyzer, synthesize: Synthesizer): (r: Result<Assessment>)
    ensures r.Ok? <==> Submitted(a, qs, questionId, responseText, analyze, synthesize).Ok?
    ensures r.Err? ==> r == Submitted(a, qs, questionId, responseText, analyze, synthesize)
    ensures r.Ok? && |a.responses| == 0 ==> r == Submitted(a, qs, questionId, responseText, analyze, synthesize)
    ensures r.Ok? && |a.responses| > 0 ==>
      r.value == Submitted(a, qs, questionId, responseText, analyze, synthesize).value.(responses := a.responses)
  {
    match Submitted(a, qs, questionId, responseText, analyze, synthesize)
    case Err(e) => Err(e)
    case Ok(b) => if |a.responses| == 0 then Ok(b) else Ok(b.(responses := a.responses))
  }

  /** As written, an assessment with at most one stored answer that is in
      progress keeps at most one stored answer and stays in progress after any
      submission: the upsert in memory has at most two keys, below the
      threshold of five. A new assessment therefore never completes. */
  lemma SubmitAsWrittenNeverCompletes(
    a: Assessment, qs: seq<Question>, questionId: int, responseText: string,
    analyze: Analyzer, synthesize: Synthesizer)
    requires |a.responses| <= 1 && a.status == InProgress && a.result.None?
    ensures var r := SubmittedAsWritten(a, qs, questionId, responseText, analyze, synthesize);
      && r.Ok?
      && |r.value.responses| <= 1 && r.value.status == InProgress && r.value.result.None?
      && (|a.responses| == 1 ==> r.value.responses == a.responses)
  {
    var key := IntToString(questionId);
    assert |Put(a.responses, key, responseText)| <= |a.responses| + 1;
  }

  /** Two answers to a new assessment: the code as written stores only the
      first, the intended upsert stores both. */
  lemma SubmitAsWrittenCounterexample(qs: seq<Question>, analyze: Analyzer, synthesize: Synthesizer)
    ensures var a := Assessment(1, 1, InProgress, [], None, None);
      var first := SubmittedAsWritten(a, qs, 1, "yes", analyze, synthesize);
      && first.Ok? && first.value.responses == [("1", "yes")]
      && SubmittedAsWritten(first.value, qs, 2, "no", analyze, synthesize).Ok?
      && SubmittedAsWritten(first.value, qs, 2, "no", analyze, synthesize).value.responses == [("1", "yes")]
      && Submitted(first.value, qs, 2, "no", analyze, synthesize).value.responses == [("1", "yes"), ("2", "no")]
  {
    var a := Assessment(1, 1, InProgress, [], None, None);
    assert IntToString(1) == "1" && IntToString(2) == "2";
    assert Put<string, string>([], "1", "yes") == [("1", "yes")];
    assert Put([("1", "yes")], "2", "no") == [("1", "yes"), ("2", "no")];
  }

  /** With the OpenRouter synthesis, an analysis that came back undecodable
      makes the submission fail. */
  lemma FallbackAnalysisFailsSubmit(
    responses: Dict<string, string>, qs: seq<Question>, analyze: Analyzer, i: nat, raw: string,
    render: Json -> string, model: string -> Option<string>, loads: string -> Option<Json>)
    requires Analyses(responses, qs, analyze).Ok?
    requires i < |Analyses(responses, qs, analyze).value|
    requires Analyses(responses, qs, analyze).value[i].1 == Fallback(raw)
    ensures Evaluated(responses, qs, analyze, SynthesizerOf(render, model, loads)) == Err(UpstreamFailure)
  {
    FallbackBreaksProfile(Analyses(responses, qs, analyze).value, i, raw, render, model, loads);
  }

  /** `candidate.personality_profile = profile` on the assessment's candidate. */
  function Mirrored(cs: seq<Candidate>, candidateId: int, profile: Option<Json>): seq<Candidate> {
    var k := CandidateIndex(cs, candidateId);
    if k < |cs| then cs[k := cs[k].(profile := profile)] else cs
  }

  /** The mirror writes the profile onto the candidate, changes nothing else
      of it, and leaves every other candidate as it was. */
  lemma MirroredProfile(cs: seq<Candidate>, candidateId: int, profile: Option<Json>, other: int)
    requires IncreasingCandidateIds(cs) && CandidateIndex(cs, candidateId) < |cs|
    ensures var c := GetCandidate(cs, candidateId).value;
      GetCandidate(Mirrored(cs, candidateId, profile), candidateId) == Some(c.(profile := profile))
    ensures other != candidateId ==>
      GetCandidate(Mirrored(cs, candidateId, profile), other) == GetCandidate(cs, other)
  {
    var k := CandidateIndex(cs, candidateId);
    var cs' := Mirrored(cs, candidateId, profile);
    CandidateIndexSameIds(cs, cs', candidateId);
    CandidateIndexSameIds(cs, cs', other);
    var j := CandidateIndex(cs, other);
    assert other != candidateId && j < |cs| ==> j != k && cs'[j] == cs[j];
  }

  /** Writing a profile keeps the candidate table constraints and every
      assessment's link. */
  lemma MirroredKeepsTable(cs: seq<Candidate>, as_: seq<Assessment>, candidateId: int, profile: Option<Json>)
    requires IncreasingCandidateIds(cs) && DistinctCandidateEmails(cs)
    requires forall i :: 0 <= i < |as_| ==> CandidateIndex(cs, as_[i].candidateId) < |cs|
    ensures var cs' := Mirrored(cs, candidateId, profile);
      && IncreasingCandidateIds(cs') && DistinctCandidateEmails(cs')
      && forall i :: 0 <= i < |as_| ==> CandidateIndex(cs', as_[i].candidateId) < |cs'|
  {
    var cs' := Mirrored(cs, candidateId, profile);
    forall i | 0 <= i < |as_| ensures CandidateIndex(cs', as_[i].candidateId) < |cs'| {
      CandidateIndexSameIds(cs, cs', as_[i].candidateId);
    }
  }

  /** Replacing an assessment by one with the same id and candidate and
      well-formed keys keeps the assessment table constraints. */
  lemma ReplacedKeepsTable(cs: seq<Candidate>, as_: seq<Assessment>, i: nat, b: Assessment)
    requires i < |as_| && IncreasingAssessmentIds(as_)
    requires b.id == as_[i].id && b.candidateId == as_[i].candidateId && WellFormedResponses(b)
    requires forall k :: 0 <= k < |as_| ==> CandidateIndex(cs, as_[k].candidateId) < |cs|
    requires forall k :: 0 <= k < |as_| ==> WellFormedResponses(as_[k])
    ensures var as' := as_[i := b];
      && IncreasingAssessmentIds(as')
      && (forall k :: 0 <= k < |as'| ==> CandidateIndex(cs, as'[k].candidateId) < |cs|)
      && (forall k :: 0 <= k < |as'| ==> WellFormedResponses(as'[k]))
  {
  }

  /** For an assessment and a question that exist, the submission is the
      submission to that assessment. */
  lemma SubmissionIs(
    as_: seq<Assessment>, qs: seq<Question>, assessmentId: int, questionId: int, responseText: string,
    analyze: Analyzer, synthesize: Synthesizer)
    requires Submission(as_, qs, assessmentId, questionId, responseText, analyze, synthesize).Ok?
    ensures AssessmentIndex(as_, assessmentId) < |as_|
    ensures Submission(as_, qs, assessmentId, questionId, responseText, analyze, synthesize)
      == Submitted(as_[AssessmentIndex(as_, assessmentId)], qs, questionId, responseText, analyze, synthesize)
  {
  }

  /** For an assessment and a question that exist, the submission is the
      upsert followed, from five answers on, by the evaluation. */
  lemma SubmissionFound(
    as_: seq<Assessment>, qs: seq<Question>, assessmentId: int, questionId: int, responseText: string,
    analyze: Analyzer, synthesize: Synthesizer)
    requires AssessmentIndex(as_, assessmentId) < |as_| && QuestionById(qs, questionId).Some?
    ensures var u := Upserted(as_[AssessmentIndex(as_, assessmentId)], questionId, responseText);
      var r := Submission(as_, qs, assessmentId, questionId, responseText, analyze, synthesize);
      && (|u.responses| < CompletionThreshold ==> r == Ok(u))
      && (|u.responses| >= CompletionThreshold ==>
        r == match Evaluated(u.responses, qs, analyze, synthesize)
             case Err(e) => Err(e)
             case Ok(p) => Ok(u.(status := Completed, result := Some(p))))
  {
  }

  /** The loop over `responses.items()`: each answer whose question exists
      is analysed, and the analysis is stored under the question's trait. */
  method AnalyzeAll(responses: Dict<string, string>, qs: seq<Question>, analyze: Analyzer)
    returns (r: Result<Dict<string, Json>>)
    ensures r == Analyses(responses, qs, analyze)
  {
    var analyses: Dict<string, Json> := [];
    for j := 0 to |responses|
      invariant Analyses(responses[..j], qs, analyze) == Ok(analyses)
    {
      var (key, text) := responses[j];
      AnalysesSnoc(responses, j, qs, analyze);
      var qid := ParseInt(key);
      if qid.None? {
        AnalysesErrPersists(responses, j + 1, qs, analyze);
        return Err(MalformedKey);
      }
      var q := QuestionById(qs, qid.value);
      if q.Some? {
        var analysis := analyze(q.value.text, text, q.value.traitCategory);
        if analysis.None? {
          AnalysesErrPersists(responses, j + 1, qs, analyze);
          return Err(UpstreamFailure);
        }
        analyses := Put(analyses, q.value.traitCategory, analysis.value);
      }
    }
    assert responses[..|responses|] == responses;
    r := Ok(analyses);
  }

  /** `candidate.personality_profile = profile` on the assessment's candidate. */
  method MirrorProfile(db: Database, candidateId: int, profile: Option<Json>)
    requires db.Valid()
    modifies db
    ensures db.Valid()
    ensures db.candidates == Mirrored(old(db.candidates), candidateId, profile)
    ensures db.users == old(db.users) && db.questions == old(db.questions)
    ensures db.assessments == old(db.assessments)
  {
    MirroredKeepsTable(db.candidates, db.assessments, candidateId, profile);
    db.candidates := Mirrored(db.candidates, candidateId, profile);
  }

  /** The assessment at position `i` is replaced by its updated row. */
  method StoreAssessment(db: Database, i: nat, b: Assessment)
    requires db.Valid()
    requires i < |db.assessments|
    requires b.id == db.assessments[i].id && b.candidateId == db.assessments[i].candidateId
    requires WellFormedResponses(b)
    modifies db
    ensures db.Valid()
    ensures db.assessments == old(db.assessments)[i := b]
    ensures db.users == old(db.users) && db.questions == old(db.questions)
    ensures db.candidates == old(db.candidates)
  {
    ReplacedKeepsTable(db.candidates, db.assessments, i, b);
    db.assessments := db.assessments[i := b];
  }

  /** `submit_response`. A failure anywhere (unknown assessment or question,
      a raising model call) commits nothing. Otherwise the answer is
      upserted; from five answers on, every answer is analysed under the
      trait of its question, the profile is synthesized from the analyses,
      the assessment is completed with it, and it is mirrored onto the
      candidate. */
  method SubmitResponse(
    db: Database, assessmentId: int, questionId: int, responseText: string,
    analyze: Analyzer, synthesize: Synthesizer) returns (r: Result<Assessment>)
    requires db.Valid()
    modifies db
    ensures db.Valid()
    ensures db.users == old(db.users) && db.questions == old(db.questions)
    ensures r == Submission(old(db.assessments), old(db.questions), assessmentId, questionId, responseText, analyze, synthesize)
    ensures r.Err? ==> db.assessments == old(db.assessments) && db.candidates == old(db.candidates)
    ensures r.Ok? ==>
      db.assessments == old(db.assessments)[AssessmentIndex(old(db.assessments), assessmentId) := r.value]
    ensures r.Ok? && |r.value.responses| >= CompletionThreshold ==>
      db.candidates == Mirrored(old(db.candidates), r.value.candidateId, r.value.result)
    ensures r.Ok? && |r.value.responses| < CompletionThreshold ==> db.candidates == old(db.candidates)
  {
    var i := AssessmentIndex(db.assessments, assessmentId);
    if i == |db.assessments| {
      return Err(AssessmentNotFound);
    }
    var question := QuestionById(db.questions, questionId);
    if question.None? {
      return Err(QuestionNotFound);
    }
    var a := db.assessments[i];
    var updated := Upserted(a, questionId, responseText);
    UpsertWellFormed(a, questionId, responseText);
    SubmissionFound(db.assessments, db.questions, assessmentId, questionId, responseText, analyze, synthesize);
    if |updated.responses| >= CompletionThreshold {
      var analyses := AnalyzeAll(updated.responses, db.questions, analyze);
      if analyses.Err? {
        return Err(analyses.error);
      }
      var profile := synthesize(analyses.value);
      if profile.None? {
        return Err(UpstreamFailure);
      }
      updated := updated.(status := Completed, result := Some(profile.value));
      MirrorProfile(db, a.candidateId, updated.result);
    }
    StoreAssessment(db, i, updated);
    r := Ok(updated);
  }
}
