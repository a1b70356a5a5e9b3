/** The question service: storing a question, paging and filtering the
    question bank, and seeding it with model-generated questions for the
    five personality traits. */
module QuestionService {
  import opened Common
  import opened Store
  import opened OpenRouter

  /** The traits `generate_and_save_questions` asks questions for, in order. */
  const Traits: seq<string> := ["openness", "conscientiousness", "extraversion", "agreeableness", "neuroticism"]

  /** Questions requested from the model per trait. */
  const QuestionsPerTrait := 3

  /** The difficulty every generated question is stored with. */
  const GeneratedDifficulty := 2

  /** `create_question`: the row is appended under the next id, with the
      text, trait and difficulty of the request. */
  method CreateQuestion(db: Database, text: string, traitCategory: string, difficulty: Option<int>)
    returns (q: Question)
    requires db.Valid()
    modifies db
    ensures db.Valid()
    ensures q == Question(NextQuestionId(old(db.questions)), text, traitCategory, difficulty)
    ensures db.questions == old(db.questions) + [q]
    ensures db.users == old(db.users) && db.candidates == old(db.candidates)
    ensures db.assessments == old(db.assessments)
  {
    q := Question(NextQuestionId(db.questions), text, traitCategory, difficulty);
    QuestionIdFresh(db.questions, q);
    db.questions := db.questions + [q];
  }

  /** `get_questions`: one page of the bank in insertion order. */
  function GetQuestions(qs: seq<Question>, skip: nat, limit: nat): (r: seq<Question>)
    ensures |r| == Min(limit, |qs| - Min(skip, |qs|))
    ensures forall i :: 0 <= i < |r| ==> r[i] == qs[skip + i]
  {
    Page(qs, skip, limit)
  }

  /** `get_questions_by_trait`: the questions of one trait, in table order. */
  function QuestionsByTrait(qs: seq<Question>, traitCategory: string): (r: seq<Question>)
    ensures |r| <= |qs|
    ensures forall q :: q in r <==> q in qs && q.traitCategory == traitCategory
    ensures IncreasingQuestionIds(qs) ==> IncreasingQuestionIds(r)
  {
    if |qs| == 0 then []
    else
      var n := |qs|;
      var prev := QuestionsByTrait(qs[..n - 1], traitCategory);
      var last := qs[n - 1];
      assert forall q :: q in qs <==> q in qs[..n - 1] || q == last by {
        LastSplit(qs);
      }
      if last.traitCategory == traitCategory then
        assert IncreasingQuestionIds(qs) ==> forall i :: 0 <= i < |prev| ==> prev[i].id < last.id by {
          if IncreasingQuestionIds(qs) {
            forall i | 0 <= i < |prev| ensures prev[i].id < last.id {
              assert prev[i] in qs[..n - 1];
              var k :| 0 <= k < n - 1 && qs[k] == prev[i];
            }
          }
        }
        prev + [last]
      else prev
  }

  /** Each text paired with its trait. */
  function Tagged(texts: seq<string>, traitCategory: string): (r: seq<(string, string)>)
    ensures |r| == |texts|
    ensures forall i :: 0 <= i < |r| ==> r[i] == (texts[i], traitCategory)
  {
    if |texts| == 0 then []
    else Tagged(texts[..|texts| - 1], traitCategory) + [(texts[|texts| - 1], traitCategory)]
  }

  /** The question generator of the injected OpenRouter service: the
      questions it returns for a trait and a count, or the failure it raises. */
  type Generator = (string, int) -> Result<seq<string>>

  /** The generator of `OpenRouterService` talking to `model`. */
  function Service(model: (string, int) -> Option<string>): Generator {
    (t: string, n: int) => GeneratedQuestions(t, n, model)
  }

  /** A generator that never returns more questions than it is asked for. */
  ghost predicate Bounded(generate: Generator) {
    forall t :: generate(t, QuestionsPerTrait).Ok? ==> |generate(t, QuestionsPerTrait).value| <= QuestionsPerTrait
  }

  /** The OpenRouter service keeps at most `count` items of the reply, and it
      fails exactly when the model call fails. */
  lemma ServiceBounded(model: (string, int) -> Option<string>)
    ensures Bounded(Service(model))
    ensures forall t :: Service(model)(t, QuestionsPerTrait).Ok? <==> model(t, QuestionsPerTrait).Some?
  {
    forall t ensures Service(model)(t, QuestionsPerTrait).Ok? ==> |Service(model)(t, QuestionsPerTrait).value| <= QuestionsPerTrait {
      var g := GeneratedQuestions(t, QuestionsPerTrait, model);
      assert Service(model)(t, QuestionsPerTrait) == g;
    }
  }

  /** The (text, trait) drafts the generation loop stores for `traits`, and
      whether every generator call succeeded. The loop stops at the first
      trait whose call raises; what was stored for earlier traits stays stored. */
  function Drafts(traits: seq<string>, generate: Generator): (seq<(string, string)>, bool)
  {
    if |traits| == 0 then ([], true)
    else
      var n := |traits|;
      var (ds, ok) := Drafts(traits[..n - 1], generate);
      var t := traits[n - 1];
      if !ok then (ds, false)
      else match generate(t, QuestionsPerTrait)
        case Err(_) => (ds, false)
        case Ok(texts) => (ds + Tagged(texts, t), true)
  }

  /** The run succeeds exactly when the generator answers for every trait;
      the drafts are tagged with listed traits only, and with a bounded
      generator there are at most three per trait. */
  lemma {:induction false} DraftsShape(traits: seq<string>, generate: Generator)
    ensures var (ds, ok) := Drafts(traits, generate);
      && (ok <==> forall t :: t in traits ==> generate(t, QuestionsPerTrait).Ok?)
      && (Bounded(generate) ==> |ds| <= QuestionsPerTrait * |traits|)
      && forall i :: 0 <= i < |ds| ==> ds[i].1 in traits
  {
    if |traits| > 0 {
      var n := |traits|;
      var init, t := traits[..n - 1], traits[n - 1];
      assert traits == init + [t];
      DraftsShape(init, generate);
      var (ds, ok) := Drafts(init, generate);
      assert forall u :: u in traits <==> u in init || u == t;
      if ok {
        var g := generate(t, QuestionsPerTrait);
        if g.Ok? {
          var ds' := ds + Tagged(g.value, t);
          assert Drafts(traits, generate) == (ds', true);
          forall i | 0 <= i < |ds'| ensures ds'[i].1 in traits {
            if i < |ds| {
              assert ds'[i] == ds[i];
            }
          }
        }
      }
    }
  }

  /** The rows stored for the drafts, under consecutive ids from `firstId`. */
  function DraftRows(firstId: int, ds: seq<(string, string)>): (r: seq<Question>)
    ensures |r| == |ds|
    ensures forall i :: 0 <= i < |r| ==> r[i] == Question(firstId + i, ds[i].0, ds[i].1, Some(GeneratedDifficulty))
  {
    if |ds| == 0 then []
    else
      var n := |ds|;
      DraftRows(firstId, ds[..n - 1]) + [Question(firstId + n - 1, ds[n - 1].0, ds[n - 1].1, Some(GeneratedDifficulty))]
  }

  /** Once a call has failed, later traits add nothing. */
  lemma {:induction false} DraftsStopAtFailure(traits: seq<string>, k: nat, generate: Generator)
    requires k <= |traits| && !Drafts(traits[..k], generate).1
    ensures Drafts(traits, generate) == Drafts(traits[..k], generate)
    decreases |traits| - k
  {
    if k < |traits| {
      var n := |traits|;
      assert traits[..k + 1][..k] == traits[..k];
      DraftsStopAtFailure(traits, k + 1, generate);
    } else {
      assert traits[..k] == traits;
    }
  }

  lemma DraftRowsSnoc(firstId: int, ds: seq<(string, string)>, d: (string, string))
    ensures DraftRows(firstId, ds + [d])
      == DraftRows(firstId, ds) + [Question(firstId + |ds|, d.0, d.1, Some(GeneratedDifficulty))]
  {
    assert (ds + [d])[..|ds|] == ds;
  }

  lemma TaggedSnoc(texts: seq<string>, j: nat, traitCategory: string)
    requires j < |texts|
    ensures Tagged(texts[..j + 1], traitCategory) == Tagged(texts[..j], traitCategory) + [(texts[j], traitCategory)]
  {
    assert texts[..j + 1][..j] == texts[..j];
  }

  lemma {:induction false} DraftRowsAppend(firstId: int, a: seq<(string, string)>, b: seq<(string, string)>)
    ensures DraftRows(firstId, a + b) == DraftRows(firstId, a) + DraftRows(firstId + |a|, b)
  {
    if |b| > 0 {
      var n := |b|;
      assert (a + b)[..|a + b| - 1] == a + b[..n - 1];
      DraftRowsAppend(firstId, a, b[..n - 1]);
    } else {
      assert a + b == a;
    }
  }

  /** After the drafts are stored, the next id is just past them. */
  lemma NextIdAfterRows(qs: seq<Question>, ds: seq<(string, string)>)
    ensures NextQuestionId(qs + DraftRows(NextQuestionId(qs), ds)) == NextQuestionId(qs) + |ds|
  {
    if |ds| > 0 {
      var rows := DraftRows(NextQuestionId(qs), ds);
      assert (qs + rows)[|qs + rows| - 1] == rows[|ds| - 1];
    } else {
      assert qs + DraftRows(NextQuestionId(qs), ds) == qs;
    }
  }

  /** A trait whose call fails ends the run with the drafts stored so far. */
  lemma DraftsFail(traits: seq<string>, i: nat, generate: Generator)
    requires i < |traits| && Drafts(traits[..i], generate).1
    requires generate(traits[i], QuestionsPerTrait).Err?
    ensures Drafts(traits, generate) == (Drafts(traits[..i], generate).0, false)
  {
    assert traits[..i + 1][..i] == traits[..i];
    DraftsStopAtFailure(traits, i + 1, generate);
  }

  /** One more trait whose call succeeded. */
  lemma DraftsStep(traits: seq<string>, i: nat, generate: Generator, texts: seq<string>)
    requires i < |traits| && Drafts(traits[..i], generate).1
    requires generate(traits[i], QuestionsPerTrait) == Ok(texts)
    ensures Drafts(traits[..i + 1], generate) == (Drafts(traits[..i], generate).0 + Tagged(texts, traits[i]), true)
  {
    assert traits[..i + 1][..i] == traits[..i];
  }

  /** `generate_and_save_questions`: the loop over the five traits, asking
      the OpenRouter service for three questions each. */
  method GenerateAndSaveQuestions(db: Database, model: (string, int) -> Option<string>)
    returns (r: Result<seq<Question>>)
    requires db.Valid()
    modifies db
    ensures db.Valid()
    ensures var rows := DraftRows(NextQuestionId(old(db.questions)), Drafts(Traits, Service(model)).0);
      && db.questions == old(db.questions) + rows
      && r == if Drafts(Traits, Service(model)).1 then Ok(rows) else Err(UpstreamFailure)
    ensures db.users == old(db.users) && db.candidates == old(db.candidates)
    ensures db.assessments == old(db.assessments)
  {
    r := SaveGenerated(db, Traits, Service(model));
  }

  /** For each trait in order, ask for three questions and store each one
      with difficulty 2. A failing call raises out of the loop; the
      questions stored before it stay in the table. */
  method SaveGenerated(db: Database, traits: seq<string>, generate: Generator)
    returns (r: Result<seq<Question>>)
    requires db.Valid()
    modifies db
    ensures db.Valid()
    ensures var rows := DraftRows(NextQuestionId(old(db.questions)), Drafts(traits, generate).0);
      && db.questions == old(db.questions) + rows
      && r == if Drafts(traits, generate).1 then Ok(rows) else Err(UpstreamFailure)
    ensures db.users == old(db.users) && db.candidates == old(db.candidates)
    ensures db.assessments == old(db.assessments)
  {
    var start := NextQuestionId(db.questions);
    ghost var q0 := db.questions;
    var all: seq<Question> := [];
    for i := 0 to |traits|
      invariant db.Valid()
      invariant Drafts(traits[..i], generate).1
      invariant all == DraftRows(start, Drafts(traits[..i], generate).0)
      invariant db.questions == q0 + all
      invariant db.users == old(db.users) && db.candidates == old(db.candidates)
      invariant db.assessments == old(db.assessments)
    {
      var t := traits[i];
      var generated := generate(t, QuestionsPerTrait);
      if generated.Err? {
        DraftsFail(traits, i, generate);
        return Err(UpstreamFailure);
      }
      var rows := SaveTexts(db, generated.value, t);
      AppendAssoc(q0, all, rows);
      SavedStep(traits, i, generate, generated.value, q0, all, rows);
      all := all + rows;
    }
    assert traits[..|traits|] == traits;
    r := Ok(all);
  }

  /** The rows one more successful trait adds extend the stored rows of the
      drafts so far to the stored rows of the drafts including that trait. */
  lemma SavedStep(
    traits: seq<string>, i: nat, generate: Generator, texts: seq<string>,
    q0: seq<Question>, all: seq<Question>, rows: seq<Question>)
    requires i < |traits| && Drafts(traits[..i], generate).1
    requires generate(traits[i], QuestionsPerTrait) == Ok(texts)
    requires all == DraftRows(NextQuestionId(q0), Drafts(traits[..i], generate).0)
    requires rows == DraftRows(NextQuestionId(q0 + all), Tagged(texts, traits[i]))
    ensures Drafts(traits[..i + 1], generate).1
    ensures all + rows == DraftRows(NextQuestionId(q0), Drafts(traits[..i + 1], generate).0)
  {
    DraftsStep(traits, i, generate, texts);
    RowsAfterRows(q0, Drafts(traits[..i], generate).0, Tagged(texts, traits[i]), all, rows);
  }

  /** Rows stored after the rows of `before`, numbered on from them, are the
      rows of the combined drafts. */
  lemma RowsAfterRows(
    q0: seq<Question>, before: seq<(string, string)>, after: seq<(string, string)>,
    all: seq<Question>, rows: seq<Question>)
    requires all == DraftRows(NextQuestionId(q0), before)
    requires rows == DraftRows(NextQuestionId(q0 + all), after)
    ensures all + rows == DraftRows(NextQuestionId(q0), before + after)
  {
    NextIdAfterRows(q0, before);
    DraftRowsAppend(NextQuestionId(q0), before, after);
  }

  /** Rows stored one per text, under consecutive ids, are the rows of the
      tagged drafts. */
  lemma DraftRowsTagged(firstId: int, texts: seq<string>, t: string, rows: seq<Question>)
    requires |rows| == |texts|
    requires forall k :: 0 <= k < |rows| ==> rows[k] == Question(firstId + k, texts[k], t, Some(GeneratedDifficulty))
    ensures rows == DraftRows(firstId, Tagged(texts, t))
  {
  }

  /** The inner loop: store each text under the trait, difficulty 2, under
      consecutive ids. */
  method SaveTexts(db: Database, texts: seq<string>, t: string) returns (rows: seq<Question>)
    requires db.Valid()
    modifies db
    ensures db.Valid()
    ensures |rows| == |texts|
    ensures forall k :: 0 <= k < |rows| ==>
      rows[k] == Question(NextQuestionId(old(db.questions)) + k, texts[k], t, Some(GeneratedDifficulty))
    ensures rows == DraftRows(NextQuestionId(old(db.questions)), Tagged(texts, t))
    ensures db.questions == old(db.questions) + rows
    ensures db.users == old(db.users) && db.candidates == old(db.candidates)
    ensures db.assessments == old(db.assessments)
  {
    var start := NextQuestionId(db.questions);
    ghost var q0 := db.questions;
    rows := [];
    for j := 0 to |texts|
      invariant db.Valid()
      invariant |rows| == j
      invariant forall k :: 0 <= k < j ==> rows[k] == Question(start + k, texts[k], t, Some(GeneratedDifficulty))
      invariant db.questions == q0 + rows
      invariant NextQuestionId(db.questions) == start + j
      invariant db.users == old(db.users) && db.candidates == old(db.candidates)
      invariant db.assessments == old(db.assessments)
    {
      var q := CreateQuestion(db, texts[j], t, Some(GeneratedDifficulty));
      rows := rows + [q];
    }
    DraftRowsTagged(start, texts, t, rows);
  }

  /** The texts of the drafts tagged with one trait, in order. */
  function TextsOf(ds: seq<(string, string)>, traitCategory: string): (r: seq<string>)
    ensures |r| <= |ds|
  {
    if |ds| == 0 then []
    else
      var n := |ds|;
      TextsOf(ds[..n - 1], traitCategory) + (if ds[n - 1].1 == traitCategory then [ds[n - 1].0] else [])
  }

  lemma {:induction false} TextsOfAppend(a: seq<(string, string)>, b: seq<(string, string)>, traitCategory: string)
    ensures TextsOf(a + b, traitCategory) == TextsOf(a, traitCategory) + TextsOf(b, traitCategory)
  {
    if |b| == 0 {
      assert a + b == a;
    } else {
      var n := |b|;
      assert (a + b)[..|a + b| - 1] == a + b[..n - 1];
      assert (a + b)[|a + b| - 1] == b[n - 1];
      TextsOfAppend(a, b[..n - 1], traitCategory);
    }
  }

  lemma {:induction false} TextsOfTagged(texts: seq<string>, u: string, traitCategory: string)
    ensures TextsOf(Tagged(texts, u), traitCategory) == if u == traitCategory then texts else []
  {
    if |texts| > 0 {
      var n := |texts|;
      var init, x := texts[..n - 1], texts[n - 1];
      TextsOfTagged(init, u, traitCategory);
      TextsOfAppend(Tagged(init, u), [(x, u)], traitCategory);
      assert [(x, u)][..0] == [];
      LastSplit(texts);
    }
  }

  /** When every call succeeds, the drafts of each listed trait are exactly
      the questions the generator produced for it, and traits outside the
      list get none. */
  lemma {:induction false} DraftsOfTrait(traits: seq<string>, generate: Generator, t: string)
    requires Drafts(traits, generate).1
    requires forall i, j :: 0 <= i < j < |traits| ==> traits[i] != traits[j]
    ensures t !in traits ==> TextsOf(Drafts(traits, generate).0, t) == []
    ensures t in traits ==> generate(t, QuestionsPerTrait).Ok?
    ensures t in traits ==>
      TextsOf(Drafts(traits, generate).0, t) == generate(t, QuestionsPerTrait).value
  {
    if |traits| > 0 {
      var n := |traits|;
      var init, u := traits[..n - 1], traits[n - 1];
      assert traits == init + [u];
      var ds := Drafts(init, generate).0;
      var g := generate(u, QuestionsPerTrait);
      assert Drafts(init, generate).1 && g.Ok?;
      assert Drafts(traits, generate).0 == ds + Tagged(g.value, u);
      forall i, j | 0 <= i < j < |init| ensures init[i] != init[j] {
        assert init[i] == traits[i] && init[j] == traits[j];
      }
      DraftsOfTrait(init, generate, t);
      TextsOfAppend(ds, Tagged(g.value, u), t);
      TextsOfTagged(g.value, u, t);
      if t == u {
        forall i | 0 <= i < |init| ensures init[i] != u {
          assert init[i] == traits[i];
        }
        assert t !in init;
      } else {
        assert t in traits <==> t in init;
      }
    }
  }

  /** The five traits are distinct, so a successful run of the OpenRouter
      service stores at most three questions per trait, exactly the ones
      produced for it, and nothing for any other trait. */
  lemma GeneratedPerTrait(model: (string, int) -> Option<string>, t: string)
    requires Drafts(Traits, Service(model)).1
    ensures t in Traits ==> GeneratedQuestions(t, QuestionsPerTrait, model).Ok?
    ensures t in Traits ==>
      TextsOf(Drafts(Traits, Service(model)).0, t) == GeneratedQuestions(t, QuestionsPerTrait, model).value
    ensures |TextsOf(Drafts(Traits, Service(model)).0, t)| <= QuestionsPerTrait
    ensures t !in Traits ==> TextsOf(Drafts(Traits, Service(model)).0, t) == []
  {
    TraitsDistinct();
    DraftsOfTrait(Traits, Service(model), t);
    ServiceBounded(model);
  }

  lemma TraitsDistinct()
    ensures forall i, j :: 0 <= i < j < |Traits| ==> Traits[i] != Traits[j]
  {
    assert forall i, j :: 0 <= i < j < |Traits| ==> Traits[i][0] != Traits[j][0];
  }
}
