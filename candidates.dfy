/** The candidate service: registration with a unique email, lookups by id
    and by email, paging, and the update of a candidate's name and email. */
module CandidateService {
  import opened Common
  import opened Store

  /** `get_candidate`: the first row with this id. */
  function GetCandidate(cs: seq<Candidate>, id: int): (r: Option<Candidate>)
    ensures r.Some? ==> r.value in cs && r.value.id == id
    ensures r.None? <==> forall c :: c in cs ==> c.id != id
  {
    var i := CandidateIndex(cs, id);
    if i < |cs| then Some(cs[i]) else None
  }

  /** The email column, as a key for FirstIndex. */
  function CandidateEmail(c: Candidate): string { c.email }

  /** Position of the first candidate with this email, or `|cs|`. */
  function EmailIndex(cs: seq<Candidate>, email: string): (i: nat)
    ensures i <= |cs|
    ensures i < |cs| ==> cs[i].email == email
    ensures forall k :: 0 <= k < i ==> cs[k].email != email
  {
    FirstIndex(cs, CandidateEmail, email)
  }

  /** `get_candidate_by_email`: the first row with this email. */
  function GetCandidateByEmail(cs: seq<Candidate>, email: string): (r: Option<Candidate>)
    ensures r.None? <==> forall c :: c in cs ==> c.email != email
    ensures r.Some? ==> r.value.email == email
    ensures r.Some? ==> exists i :: 0 <= i < |cs| && cs[i] == r.value && (forall k :: 0 <= k < i ==> cs[k].email != email)
  {
    var i := EmailIndex(cs, email);
    if i < |cs| then Some(cs[i]) else None
  }

  /** `get_candidates`: one page of the table in insertion order. */
  function GetCandidates(cs: seq<Candidate>, skip: nat, limit: nat): (r: seq<Candidate>)
    ensures |r| == Min(limit, |cs| - Min(skip, |cs|))
    ensures forall i :: 0 <= i < |r| ==> r[i] == cs[skip + i]
  {
    Page(cs, skip, limit)
  }

  /** The row `create_candidate` inserts. */
  function NewCandidate(cs: seq<Candidate>, name: string, email: string): Candidate {
    Candidate(NextCandidateId(cs), name, email, None, None)
  }

  /** `create_candidate`: refused when the email is taken; otherwise a row
      with no personality profile is appended under the next id. */
  method CreateCandidate(db: Database, name: string, email: string) returns (r: Result<Candidate>)
    requires db.Valid()
    modifies db
    ensures db.Valid()
    ensures db.users == old(db.users) && db.questions == old(db.questions)
    ensures db.assessments == old(db.assessments)
    ensures (exists c :: c in old(db.candidates) && c.email == email) ==>
      r == Err(DuplicateEmail) && db.candidates == old(db.candidates)
    ensures (forall c :: c in old(db.candidates) ==> c.email != email) ==>
      r == Ok(NewCandidate(old(db.candidates), name, email))
      && db.candidates == old(db.candidates) + [r.value]
  {
    var existing := GetCandidateByEmail(db.candidates, email);
    if existing.Some? {
      return Err(DuplicateEmail);
    }
    var c := NewCandidate(db.candidates, name, email);
    CreatedKeepsTable(db.candidates, db.assessments, name, email);
    db.candidates := db.candidates + [c];
    r := Ok(c);
  }

  /** Appending a new candidate keeps the table constraints and every
      assessment's link to its candidate. */
  lemma CreatedKeepsTable(cs: seq<Candidate>, as_: seq<Assessment>, name: string, email: string)
    requires IncreasingCandidateIds(cs) && DistinctCandidateEmails(cs)
    requires forall c :: c in cs ==> c.email != email
    requires forall i :: 0 <= i < |as_| ==> CandidateIndex(cs, as_[i].candidateId) < |cs|
    ensures var cs' := cs + [NewCandidate(cs, name, email)];
      && IncreasingCandidateIds(cs') && DistinctCandidateEmails(cs')
      && forall i :: 0 <= i < |as_| ==> CandidateIndex(cs', as_[i].candidateId) < |cs'|
  {
    var c := NewCandidate(cs, name, email);
    var cs' := cs + [c];
    CandidateIndexFresh(cs, c);
    forall i, j | 0 <= i < j < |cs'| ensures cs'[i].email != cs'[j].email {
      if j == |cs| {
        assert cs'[i] in cs;
      } else {
        assert cs'[i] == cs[i] && cs'[j] == cs[j];
      }
    }
    forall i | 0 <= i < |as_| ensures CandidateIndex(cs', as_[i].candidateId) < |cs'| {
      CandidateIndexAppend(cs, c, as_[i].candidateId);
    }
  }

  /** A registered candidate is found by its email and by its new id, and
      it starts without a personality profile. */
  lemma CreatedIsFound(cs: seq<Candidate>, name: string, email: string)
    requires IncreasingCandidateIds(cs)
    requires forall c :: c in cs ==> c.email != email
    ensures var c := NewCandidate(cs, name, email);
      && GetCandidateByEmail(cs + [c], email) == Some(c)
      && GetCandidate(cs + [c], c.id) == Some(c)
      && c.profile.None?
  {
    var c := NewCandidate(cs, name, email);
    var cs' := cs + [c];
    CandidateIndexFresh(cs, c);
    forall k | 0 <= k < |cs| ensures cs'[k].email != email {
      assert cs'[k] == cs[k] && cs[k] in cs;
    }
  }

  /** The row `update_candidate` writes: name and email from the request,
      id and personality profile kept. */
  function Renamed(c: Candidate, name: string, email: string): Candidate {
    c.(name := name, email := email)
  }

  /** `update_candidate`: `Ok(None)` for an unknown id; the commit fails on
      the unique email column when another row already holds the email;
      otherwise the row gets the new name and email. */
  method UpdateCandidate(db: Database, id: int, name: string, email: string) returns (r: Result<Option<Candidate>>)
    requires db.Valid()
    modifies db
    ensures db.Valid()
    ensures db.users == old(db.users) && db.questions == old(db.questions)
    ensures db.assessments == old(db.assessments)
    ensures var cs, i := old(db.candidates), CandidateIndex(old(db.candidates), id);
      if i == |cs| then r == Ok(None) && db.candidates == cs
      else if exists k :: 0 <= k < |cs| && k != i && cs[k].email == email then
        r == Err(IntegrityError) && db.candidates == cs
      else r == Ok(Some(Renamed(cs[i], name, email))) && db.candidates == cs[i := r.value.value]
  {
    var cs := db.candidates;
    var i := CandidateIndex(cs, id);
    if i == |cs| {
      return Ok(None);
    }
    var j := EmailIndex(cs, email);
    if j < |cs| && j != i {
      return Err(IntegrityError);
    }
    // The email column is unique, so when row `i` holds the email no other row does.
    assert forall k :: 0 <= k < |cs| && k != i ==> cs[k].email != email;
    var c := Renamed(cs[i], name, email);
    RenamedKeepsTable(cs, db.assessments, i, name, email);
    db.candidates := cs[i := c];
    r := Ok(Some(c));
  }

  lemma RenamedKeepsTable(cs: seq<Candidate>, as_: seq<Assessment>, i: nat, name: string, email: string)
    requires i < |cs|
    requires IncreasingCandidateIds(cs) && DistinctCandidateEmails(cs)
    requires forall k :: 0 <= k < |cs| && k != i ==> cs[k].email != email
    requires forall j :: 0 <= j < |as_| ==> CandidateIndex(cs, as_[j].candidateId) < |cs|
    ensures var cs' := cs[i := Renamed(cs[i], name, email)];
      && IncreasingCandidateIds(cs') && DistinctCandidateEmails(cs')
      && forall j :: 0 <= j < |as_| ==> CandidateIndex(cs', as_[j].candidateId) < |cs'|
  {
    var cs' := cs[i := Renamed(cs[i], name, email)];
    forall j | 0 <= j < |as_| ensures CandidateIndex(cs', as_[j].candidateId) < |cs'| {
      CandidateIndexSameIds(cs, cs', as_[j].candidateId);
    }
  }

  /** After an update the id finds the renamed row, and every other id
      finds what it found before. */
  lemma UpdateIsFound(cs: seq<Candidate>, i: nat, name: string, email: string, other: int)
    requires i < |cs| && IncreasingCandidateIds(cs)
    ensures var c := Renamed(cs[i], name, email);
      && GetCandidate(cs[i := c], cs[i].id) == Some(c)
      && c.profile == cs[i].profile
      && (other != cs[i].id ==> GetCandidate(cs[i := c], other) == GetCandidate(cs, other))
  {
    var c := Renamed(cs[i], name, email);
    var cs' := cs[i := c];
    CandidateIndexSameIds(cs, cs', cs[i].id);
    CandidateIndexSameIds(cs, cs', other);
    assert forall k :: 0 <= k < i ==> cs[k].id < cs[i].id;
    if other != cs[i].id {
      var k := CandidateIndex(cs, other);
      assert k < |cs| ==> k != i && cs'[k] == cs[k];
    }
  }
}
