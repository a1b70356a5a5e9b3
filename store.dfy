/** The four tables of the backend (users, candidates, questions,
    assessments) as one in-memory database that the services update in
    place, and the row lookups every service shares. Each table is kept in
    insertion order; a new row gets the next id after the last one, so ids
    grow strictly along each table. */
module Store {
  import opened Common
  import opened Text
  import opened JsonValue
  import opened Dict

  datatype Status = InProgress | Completed

  /** A candidate row. `userId` is the link to an account that one query of
      the assessment service filters on; the candidate table declares no such
      column, and no operation of the model ever sets it. */
  datatype Candidate = Candidate(
    id: int,
    name: string,
    email: string,
    profile: Option<Json>,
    userId: Option<int>)

  /** A question row; `difficulty` is nullable in the request schema. */
  datatype Question = Question(id: int, text: string, traitCategory: string, difficulty: Option<int>)

  /** An assessment row. `responses` maps `str(question_id)` to the answer. */
  datatype Assessment = Assessment(
    id: int,
    candidateId: int,
    status: Status,
    responses: Dict<string, string>,
    result: Option<Json>,
    resumePath: Option<string>)

  /** An account row. */
  datatype User = User(
    id: int,
    username: string,
    email: string,
    passwordHash: string,
    isActive: bool,
    role: string)

  predicate IncreasingCandidateIds(cs: seq<Candidate>) {
    forall i, j :: 0 <= i < j < |cs| ==> cs[i].id < cs[j].id
  }

  predicate IncreasingQuestionIds(qs: seq<Question>) {
    forall i, j :: 0 <= i < j < |qs| ==> qs[i].id < qs[j].id
  }

  predicate IncreasingAssessmentIds(as_: seq<Assessment>) {
    forall i, j :: 0 <= i < j < |as_| ==> as_[i].id < as_[j].id
  }

  predicate IncreasingUserIds(us: seq<User>) {
    forall i, j :: 0 <= i < j < |us| ==> us[i].id < us[j].id
  }

  /** The unique `email` column of the candidate table. */
  predicate DistinctCandidateEmails(cs: seq<Candidate>) {
    forall i, j :: 0 <= i < j < |cs| ==> cs[i].email != cs[j].email
  }

  /** The unique `username` and `email` columns of the user table. */
  predicate DistinctAccounts(us: seq<User>) {
    forall i, j :: 0 <= i < j < |us| ==> us[i].username != us[j].username && us[i].email != us[j].email
  }

  /** Every response key is the decimal rendering of an integer id. */
  predicate WellFormedResponses(a: Assessment) {
    UniqueKeys(a.responses)
    && forall i :: 0 <= i < |a.responses| ==> ParseInt(a.responses[i].0).Some?
  }

  /** The id the next inserted row receives: one past the last id, 1 in an
      empty table (the rowid rule of the database engine, with no deletes). */
  function NextCandidateId(cs: seq<Candidate>): int {
    if |cs| == 0 then 1 else cs[|cs| - 1].id + 1
  }

  function NextQuestionId(qs: seq<Question>): int {
    if |qs| == 0 then 1 else qs[|qs| - 1].id + 1
  }

  function NextAssessmentId(as_: seq<Assessment>): int {
    if |as_| == 0 then 1 else as_[|as_| - 1].id + 1
  }

  function NextUserId(us: seq<User>): int {
    if |us| == 0 then 1 else us[|us| - 1].id + 1
  }

  /** The id columns, as keys for FirstIndex. */
  function CandidateId(c: Candidate): int { c.id }
  function QuestionId(q: Question): int { q.id }
  function AssessmentId(a: Assessment): int { a.id }

  /** Position of the first candidate with this id (`.first()`), or `|cs|`. */
  function CandidateIndex(cs: seq<Candidate>, id: int): (i: nat)
    ensures i <= |cs|
    ensures i < |cs| ==> cs[i].id == id
    ensures forall k :: 0 <= k < i ==> cs[k].id != id
  {
    FirstIndex(cs, CandidateId, id)
  }

  /** Position of the first question with this id, or `|qs|`. */
  function QuestionIndex(qs: seq<Question>, id: int): (i: nat)
    ensures i <= |qs|
    ensures i < |qs| ==> qs[i].id == id
    ensures forall k :: 0 <= k < i ==> qs[k].id != id
  {
    FirstIndex(qs, QuestionId, id)
  }

  /** Position of the first assessment with this id, or `|as_|`. */
  function AssessmentIndex(as_: seq<Assessment>, id: int): (i: nat)
    ensures i <= |as_|
    ensures i < |as_| ==> as_[i].id == id
    ensures forall k :: 0 <= k < i ==> as_[k].id != id
  {
    FirstIndex(as_, AssessmentId, id)
  }

  /** `db.query(Question).filter(Question.id == id).first()`. */
  function QuestionById(qs: seq<Question>, id: int): (r: Option<Question>)
    ensures r.Some? ==> r.value in qs && r.value.id == id
    ensures r.None? ==> forall q :: q in qs ==> q.id != id
  {
    var i := QuestionIndex(qs, id);
    if i < |qs| then Some(qs[i]) else None
  }

  /** Appending a row keeps the position of every id already present. */
  lemma CandidateIndexAppend(cs: seq<Candidate>, c: Candidate, id: int)
    requires CandidateIndex(cs, id) < |cs|
    ensures CandidateIndex(cs + [c], id) == CandidateIndex(cs, id)
  {
    FirstIndexAppend(cs, c, CandidateId, id);
  }

  /** A row whose id is new is found at the end it was appended to. */
  lemma CandidateIndexFresh(cs: seq<Candidate>, c: Candidate)
    requires IncreasingCandidateIds(cs) && c.id == NextCandidateId(cs)
    ensures IncreasingCandidateIds(cs + [c])
    ensures CandidateIndex(cs + [c], c.id) == |cs|
    ensures CandidateIndex(cs, c.id) == |cs|
  {
    var v' := cs + [c];
    forall i, j | 0 <= i < j < |v'| ensures v'[i].id < v'[j].id {
      if j == |cs| {
        assert cs[i].id <= cs[|cs| - 1].id;
      }
    }
    forall k | 0 <= k < |cs| ensures cs[k].id != c.id {
      assert cs[k].id <= cs[|cs| - 1].id;
    }
    CandidateIndexAbsent(cs, c);
  }

  lemma CandidateIndexAbsent(cs: seq<Candidate>, c: Candidate)
    requires forall k :: 0 <= k < |cs| ==> cs[k].id != c.id
    ensures CandidateIndex(cs + [c], c.id) == |cs|
  {
    FirstIndexAbsent(cs, c, CandidateId);
  }

  /** Rewriting rows without touching their ids keeps every position. */
  lemma CandidateIndexSameIds(cs: seq<Candidate>, cs': seq<Candidate>, id: int)
    requires |cs'| == |cs|
    requires forall k :: 0 <= k < |cs| ==> cs'[k].id == cs[k].id
    ensures CandidateIndex(cs', id) == CandidateIndex(cs, id)
  {
    FirstIndexSameKeys(cs, cs', CandidateId, id);
  }

  lemma AssessmentIndexAppend(as_: seq<Assessment>, a: Assessment, id: int)
    requires AssessmentIndex(as_, id) < |as_|
    ensures AssessmentIndex(as_ + [a], id) == AssessmentIndex(as_, id)
  {
    FirstIndexAppend(as_, a, AssessmentId, id);
  }

  lemma AssessmentIndexFresh(as_: seq<Assessment>, a: Assessment)
    requires IncreasingAssessmentIds(as_) && a.id == NextAssessmentId(as_)
    ensures IncreasingAssessmentIds(as_ + [a])
    ensures AssessmentIndex(as_ + [a], a.id) == |as_|
    ensures AssessmentIndex(as_, a.id) == |as_|
  {
    var v' := as_ + [a];
    forall i, j | 0 <= i < j < |v'| ensures v'[i].id < v'[j].id {
      if j == |as_| {
        assert as_[i].id <= as_[|as_| - 1].id;
      }
    }
    forall k | 0 <= k < |as_| ensures as_[k].id != a.id {
      assert as_[k].id <= as_[|as_| - 1].id;
    }
    AssessmentIndexAbsent(as_, a);
  }

  lemma AssessmentIndexAbsent(as_: seq<Assessment>, a: Assessment)
    requires forall k :: 0 <= k < |as_| ==> as_[k].id != a.id
    ensures AssessmentIndex(as_ + [a], a.id) == |as_|
  {
    FirstIndexAbsent(as_, a, AssessmentId);
  }

  lemma AssessmentIndexSameIds(as_: seq<Assessment>, as': seq<Assessment>, id: int)
    requires |as'| == |as_|
    requires forall k :: 0 <= k < |as_| ==> as'[k].id == as_[k].id
    ensures AssessmentIndex(as', id) == AssessmentIndex(as_, id)
  {
    FirstIndexSameKeys(as_, as', AssessmentId, id);
  }

  lemma QuestionIdFresh(qs: seq<Question>, q: Question)
    requires IncreasingQuestionIds(qs) && q.id == NextQuestionId(qs)
    ensures IncreasingQuestionIds(qs + [q])
  {
    var qs' := qs + [q];
    forall i, j | 0 <= i < j < |qs'| ensures qs'[i].id < qs'[j].id {
      if j == |qs| {
        assert qs[i].id <= qs[|qs| - 1].id;
      }
    }
  }

  lemma UserIdFresh(us: seq<User>, u: User)
    requires IncreasingUserIds(us) && u.id == NextUserId(us)
    ensures IncreasingUserIds(us + [u])
  {
    var us' := us + [u];
    forall i, j | 0 <= i < j < |us'| ensures us'[i].id < us'[j].id {
      if j == |us| {
        assert us[i].id <= us[|us| - 1].id;
      }
    }
  }

  /** The whole database of one deployment, updated in place by the services. */
  class Database {
    var users: seq<User>
    var candidates: seq<Candidate>
    var questions: seq<Question>
    var assessments: seq<Assessment>

    /** The table constraints: strictly increasing ids, the unique columns,
        the candidate foreign key of assessments, and decimal response keys. */
    ghost predicate Valid()
      reads this
    {
      && IncreasingUserIds(users)
      && IncreasingCandidateIds(candidates)
      && IncreasingQuestionIds(questions)
      && IncreasingAssessmentIds(assessments)
      && DistinctAccounts(users)
      && DistinctCandidateEmails(candidates)
      && (forall i :: 0 <= i < |assessments| ==> CandidateIndex(candidates, assessments[i].candidateId) < |candidates|)
      && (forall i :: 0 <= i < |assessments| ==> WellFormedResponses(assessments[i]))
    }

    constructor ()
      ensures Valid()
      ensures users == [] && candidates == [] && questions == [] && assessments == []
    {
      users, candidates, questions, assessments := [], [], [], [];
    }
  }
}
