/** Wrapper types, the error taxonomy of the service layer, and the
    offset/limit paging every list query of the backend uses. */
module Common {

  datatype Option<T> = None | Some(value: T)

  /** The failures the services raise. The first five are the services'
      `ValueError`s (the routes map them to 400); the others surface as 500. */
  datatype Error =
    | CandidateNotFound      // assessment creation with an unknown candidate id
    | AssessmentNotFound     // submission to an unknown assessment id
    | QuestionNotFound       // submission naming an unknown question id
    | DuplicateEmail         // candidate registration with an email already present
    | MalformedKey           // `int(key)` on a response key that is not a decimal
    | UpstreamFailure        // the language-model call raised, or its output was unusable
    | IntegrityError         // the database refused a write that breaks a unique column
    | MissingColumn          // a query named an attribute the mapped class does not have

  datatype Result<T> = Ok(value: T) | Err(error: Error)

  /** What an HTTP handler answers: a status code with a body, or an error
      status raised as `HTTPException`. */
  datatype Outcome<T> = Success(code: int, value: T) | Failure(code: int)

  /** The smaller of two integers. */
  function Min(a: int, b: int): (m: int)
    ensures m <= a && m <= b && (m == a || m == b)
  {
    if a <= b then a else b
  }

  /** Concatenation is associative. */
  lemma AppendAssoc<T>(a: seq<T>, b: seq<T>, c: seq<T>)
    ensures a + b + c == a + (b + c)
  {
  }

  /** A non-empty sequence is its prefix followed by its last element. */
  lemma LastSplit<T>(s: seq<T>)
    requires |s| > 0
    ensures s == s[..|s| - 1] + [s[|s| - 1]]
  {
  }

  /** `query.offset(skip).limit(limit).all()`: the rows after the first
      `skip`, at most `limit` of them, in table order. */
  function Page<T>(rows: seq<T>, skip: nat, limit: nat): (r: seq<T>)
    ensures |r| == Min(limit, |rows| - Min(skip, |rows|))
    ensures |r| <= limit
    ensures forall i :: 0 <= i < |r| ==> r[i] == rows[skip + i]
  {
    if skip >= |rows| then []
    else if |rows| - skip <= limit then rows[skip..]
    else rows[skip..skip + limit]
  }

  /** Reading `l1` rows from `skip` and then `l2` rows from where that page
      ends gives the rows of one page of `l1 + l2` rows from `skip`. */
  lemma PagesAdjacent<T>(rows: seq<T>, skip: nat, l1: nat, l2: nat)
    ensures Page(rows, skip, l1) + Page(rows, skip + l1, l2) == Page(rows, skip, l1 + l2)
  {
    var a, b, c := Page(rows, skip, l1), Page(rows, skip + l1, l2), Page(rows, skip, l1 + l2);
    assert |a + b| == |c|;
    forall i | 0 <= i < |c| ensures (a + b)[i] == c[i] {
      if i >= |a| {
        assert |a| == l1;
        assert (a + b)[i] == b[i - l1] == rows[skip + i];
      }
    }
  }

  /** Position of the first row whose key is `k` (`.filter(key == k).first()`),
      or `|rows|` when there is none. */
  function FirstIndex<T, K(==)>(rows: seq<T>, key: T -> K, k: K): (i: nat)
    ensures i <= |rows|
    ensures i < |rows| ==> key(rows[i]) == k
    ensures forall j :: 0 <= j < i ==> key(rows[j]) != k
  {
    if |rows| == 0 then 0 else if key(rows[0]) == k then 0 else 1 + FirstIndex(rows[1..], key, k)
  }

  /** Appending a row keeps the position of every key already present. */
  lemma {:induction false} FirstIndexAppend<T, K>(rows: seq<T>, r: T, key: T -> K, k: K)
    requires FirstIndex(rows, key, k) < |rows|
    ensures FirstIndex(rows + [r], key, k) == FirstIndex(rows, key, k)
  {
    assert (rows + [r])[0] == rows[0];
    if key(rows[0]) != k {
      assert (rows + [r])[1..] == rows[1..] + [r];
      FirstIndexAppend(rows[1..], r, key, k);
    }
  }

  /** A row whose key is new is found at the end it was appended to. */
  lemma {:induction false} FirstIndexAbsent<T, K>(rows: seq<T>, r: T, key: T -> K)
    requires forall j :: 0 <= j < |rows| ==> key(rows[j]) != key(r)
    ensures FirstIndex(rows + [r], key, key(r)) == |rows|
  {
    if |rows| > 0 {
      assert (rows + [r])[0] == rows[0];
      assert (rows + [r])[1..] == rows[1..] + [r];
      FirstIndexAbsent(rows[1..], r, key);
    }
  }

  /** Rewriting rows without touching their keys keeps every position. */
  lemma {:induction false} FirstIndexSameKeys<T, K>(rows: seq<T>, rows': seq<T>, key: T -> K, k: K)
    requires |rows'| == |rows|
    requires forall j :: 0 <= j < |rows| ==> key(rows'[j]) == key(rows[j])
    ensures FirstIndex(rows', key, k) == FirstIndex(rows, key, k)
  {
    if |rows| > 0 && key(rows[0]) != k {
      FirstIndexSameKeys(rows[1..], rows'[1..], key, k);
    }
  }
}
