/** The language-model gateway: the text parsers that turn the model's free
    text into question lists and JSON records, the truncation of generated
    question lists, the per-trait summary sent for profile synthesis, and the
    two analysis calls. The model itself is a function parameter returning
    `None` where the HTTP call raises; `json.loads` is a parameter `loads`
    returning `None` where it raises a decode error. */
module OpenRouter {
  import opened Common
  import opened Text
  import opened JsonValue
  import opened Dict

  // ---------------------------------------------------------------- questions

  /** A stripped line that a numbered or bulleted list item can be: it starts
      with a digit or with '-'. */
  predicate IsListItem(line: string) {
    |line| > 0 && (IsDigit(line[0]) || line[0] == '-')
  }

  /** The question carried by a list line: the text after its first '.', or,
      without a '.', the text after its first character; stripped either way. */
  function ItemText(line: string): (q: string)
    requires IsListItem(line)
    ensures IsStripped(q) && |q| < |line|
  {
    var dot := IndexOf(line, '.');
    if dot < |line| then Strip(line[dot + 1..]) else Strip(line[1..])
  }

  /** What one line of the reply contributes: its item, or nothing. */
  function LineItems(line: string): (r: seq<string>)
    ensures |r| <= 1 && forall i :: 0 <= i < |r| ==> IsStripped(r[i])
  {
    var l := Strip(line);
    if IsListItem(l) then [ItemText(l)] else []
  }

  /** The items of a sequence of lines, in line order. */
  function ListItems(lines: seq<string>): (items: seq<string>)
    ensures |items| <= |lines|
    ensures forall i :: 0 <= i < |items| ==> IsStripped(items[i])
  {
    if |lines| == 0 then []
    else
      var prev := ListItems(lines[..|lines| - 1]);
      var last := LineItems(lines[|lines| - 1]);
      assert forall i :: 0 <= i < |prev| ==> (prev + last)[i] == prev[i];
      assert forall i :: |prev| <= i < |prev| + |last| ==> (prev + last)[i] == last[i - |prev|];
      prev + last
  }

  /** `text.strip().split("\n")`. */
  function Lines(text: string): seq<string> {
    Split(Strip(text), '\n')
  }

  /** What `_parse_questions` returns for `text`. Never longer than the
      reply has lines, and every item is stripped. */
  function ParsedQuestions(text: string): (qs: seq<string>)
    ensures |qs| <= |Lines(text)|
    ensures forall i :: 0 <= i < |qs| ==> IsStripped(qs[i])
  {
    ListItems(Lines(text))
  }

  /** `_parse_questions`: walk the lines, keep each list line's item. */
  method ParseQuestions(text: string) returns (questions: seq<string>)
    ensures questions == ParsedQuestions(text)
    ensures |questions| <= |Lines(text)|
  {
    var lines := Split(Strip(text), '\n');
    questions := [];
    for i := 0 to |lines|
      invariant questions == ListItems(lines[..i])
    {
      assert lines[..i + 1][..i] == lines[..i];
      var line := Strip(lines[i]);
      if IsListItem(line) {
        questions := questions + [ItemText(line)];
      }
    }
    assert lines[..|lines|] == lines;
  }

  /** Items are collected line by line: the items of two runs of lines are
      the items of the first followed by those of the second. */
  lemma {:induction false} ListItemsAppend(a: seq<string>, b: seq<string>)
    ensures ListItems(a + b) == ListItems(a) + ListItems(b)
  {
    if |b| == 0 {
      assert a + b == a;
    } else {
      var b' := b[..|b| - 1];
      assert (a + b)[..|a + b| - 1] == a + b';
      assert (a + b)[|a + b| - 1] == b[|b| - 1];
      ListItemsAppend(a, b');
    }
  }

  /** A list line whose first '.' follows `head` yields the stripped text after it. */
  lemma ItemTextAfterFirstDot(head: string, rest: string)
    requires '.' !in head && IsListItem(head + ['.'] + rest)
    ensures ItemText(head + ['.'] + rest) == Strip(rest)
  {
    var line := head + ['.'] + rest;
    assert line[|head|] == '.';
    assert forall k :: 0 <= k < |head| ==> line[k] == head[k];
    assert IndexOf(line, '.') == |head|;
    assert line[|head| + 1..] == rest;
  }

  /** A list line without '.' yields its text after the first character, stripped. */
  lemma ItemTextWithoutDot(line: string)
    requires IsListItem(line) && '.' !in line
    ensures ItemText(line) == Strip(line[1..])
  {
    IndexOfAbsent(line, '.');
  }

  /** The numbered list `1. q1`, `2. q2`, ... a model is asked to return. */
  function NumberedList(qs: seq<string>): (lines: seq<string>)
    ensures |lines| == |qs|
  {
    if |qs| == 0 then []
    else NumberedList(qs[..|qs| - 1]) + [IntToString(|qs|) + ". " + qs[|qs| - 1]]
  }

  /** Questions that are non-empty, stripped and single-line. */
  predicate PlainQuestions(qs: seq<string>) {
    forall i :: 0 <= i < |qs| ==> |qs[i]| > 0 && IsStripped(qs[i]) && '\n' !in qs[i]
  }

  lemma NumberedLineShape(n: nat, q: string)
    requires n >= 1 && |q| > 0 && IsStripped(q) && '\n' !in q
    ensures var line := IntToString(n) + ". " + q;
      && '\n' !in line && IsListItem(line) && IsStripped(line)
      && LineItems(line) == [q]
  {
    var head := IntToString(n);
    var line := head + ". " + q;
    assert line == head + ['.'] + (" " + q);
    assert line[0] == head[0] && line[|line| - 1] == q[|q| - 1];
    assert forall k :: 0 <= k < |head| ==> line[k] == head[k];
    assert forall k :: |head| + 2 <= k < |line| ==> line[k] == q[k - |head| - 2];
    assert '.' !in head && '\n' !in head by {
      assert forall k :: 0 <= k < |head| ==> IsDigit(head[k]);
    }
    StripOfStripped(line);
    ItemTextAfterFirstDot(head, " " + q);
    StripRemovesPadding(" ", q, []);
    assert " " + q + [] == " " + q;
  }

  /** The items of lines with one more line at the end. */
  lemma ListItemsSnoc(prefix: seq<string>, last: string)
    ensures ListItems(prefix + [last]) == ListItems(prefix) + LineItems(last)
  {
    var lines := prefix + [last];
    assert lines[..|lines| - 1] == prefix;
  }

  lemma {:induction false} ListItemsOfNumberedList(qs: seq<string>)
    requires PlainQuestions(qs)
    ensures ListItems(NumberedList(qs)) == qs
  {
    if |qs| > 0 {
      var n := |qs|;
      var init, q := qs[..n - 1], qs[n - 1];
      var last := IntToString(n) + ". " + q;
      LastNumberedLine(qs);
      ListItemsOfNumberedList(init);
      ListItemsSnoc(NumberedList(init), last);
      LastSplit(qs);
    }
  }

  /** The last line of a numbered list, and the list before it. */
  lemma LastNumberedLine(qs: seq<string>)
    requires |qs| > 0 && PlainQuestions(qs)
    ensures var n := |qs|;
      && PlainQuestions(qs[..n - 1])
      && NumberedList(qs) == NumberedList(qs[..n - 1]) + [IntToString(n) + ". " + qs[n - 1]]
      && LineItems(IntToString(n) + ". " + qs[n - 1]) == [qs[n - 1]]
  {
    var n := |qs|;
    var init := qs[..n - 1];
    forall i | 0 <= i < |init| ensures |init[i]| > 0 && IsStripped(init[i]) && '\n' !in init[i] {
      assert init[i] == qs[i];
    }
    NumberedLineShape(n, qs[n - 1]);
  }

  lemma {:induction false} JoinStripped(parts: seq<string>, sep: char)
    requires |parts| >= 1
    requires forall i :: 0 <= i < |parts| ==> |parts[i]| > 0 && IsStripped(parts[i])
    ensures |Join(parts, sep)| > 0 && IsStripped(Join(parts, sep))
  {
    JoinEnds(parts, sep);
    var s := Join(parts, sep);
    var first, last := parts[0], parts[|parts| - 1];
    assert !IsSpace(first[0]) && !IsSpace(last[|last| - 1]);
  }

  lemma {:induction false} JoinEnds(parts: seq<string>, sep: char)
    requires |parts| >= 1
    requires forall i :: 0 <= i < |parts| ==> |parts[i]| > 0
    ensures var s := Join(parts, sep); |s| > 0 && s[0] == parts[0][0] && s[|s| - 1] == parts[|parts| - 1][|parts[|parts| - 1]| - 1]
  {
    if |parts| > 1 {
      JoinEnds(parts[1..], sep);
    }
  }

  /** Parsing round-trips the numbered list a model is asked for: joining
      `1. q1` ... `n. qn` with newlines and parsing gives back q1 ... qn. */
  lemma ParseNumberedList(qs: seq<string>)
    requires |qs| > 0 && PlainQuestions(qs)
    ensures ParsedQuestions(Join(NumberedList(qs), '\n')) == qs
  {
    var lines := NumberedList(qs);
    var text := Join(lines, '\n');
    NumberedLinesPlain(qs);
    JoinStripped(lines, '\n');
    assert IsStripped(text);
    StripOfStripped(text);
    assert Strip(text) == text;
    SplitJoin(lines, '\n');
    assert Split(text, '\n') == lines;
    assert Lines(text) == lines;
    ListItemsOfNumberedList(qs);
    assert ListItems(lines) == qs;
  }

  /** Every line of a numbered list is a non-empty stripped single line. */
  lemma NumberedLinesPlain(qs: seq<string>)
    requires PlainQuestions(qs)
    ensures forall i :: 0 <= i < |qs| ==>
      |NumberedList(qs)[i]| > 0 && IsStripped(NumberedList(qs)[i]) && '\n' !in NumberedList(qs)[i]
  {
    forall i | 0 <= i < |qs|
      ensures |NumberedList(qs)[i]| > 0 && IsStripped(NumberedList(qs)[i]) && '\n' !in NumberedList(qs)[i]
    {
      NumberedListLine(qs, i);
      NumberedLineShape(i + 1, qs[i]);
    }
  }

  lemma {:induction false} NumberedListLine(qs: seq<string>, i: nat)
    requires i < |qs|
    ensures NumberedList(qs)[i] == IntToString(i + 1) + ". " + qs[i]
  {
    if i < |qs| - 1 {
      NumberedListLine(qs[..|qs| - 1], i);
    }
  }

  /** `items[:count]` with Python's slice rules: a negative `count` drops
      that many items from the end. */
  function TakePrefix(items: seq<string>, count: int): (r: seq<string>)
    ensures |r| <= |items| && r == items[..|r|]
    ensures count >= 0 ==> |r| == Min(count, |items|)
    ensures count < 0 ==> |r| == if |items| + count < 0 then 0 else |items| + count
  {
    if count >= 0 then (if count <= |items| then items[..count] else items)
    else if |items| + count < 0 then []
    else items[..|items| + count]
  }

  /** What `generate_questions(trait_category, count)` returns: `model(trait_category, count)`
      is the model's reply to the prompt built from the two, `None` where the
      call raises. The result is the first `count` parsed questions. */
  function GeneratedQuestions(traitCategory: string, count: int, model: (string, int) -> Option<string>)
    : (r: Result<seq<string>>)
    ensures r.Err? <==> model(traitCategory, count).None?
    ensures r.Err? ==> r.error == UpstreamFailure
    ensures r.Ok? && count >= 0 ==> |r.value| <= count
    ensures r.Ok? ==> forall i :: 0 <= i < |r.value| ==> IsStripped(r.value[i])
  {
    match model(traitCategory, count)
    case None => Err(UpstreamFailure)
    case Some(reply) => Ok(TakePrefix(ParsedQuestions(reply), count))
  }

  /** `generate_questions`: ask the model, parse its reply, keep `count` items. */
  method GenerateQuestions(traitCategory: string, count: int, model: (string, int) -> Option<string>)
    returns (r: Result<seq<string>>)
    ensures r == GeneratedQuestions(traitCategory, count, model)
  {
    var reply := model(traitCategory, count);
    if reply.None? {
      return Err(UpstreamFailure);
    }
    var questions := ParseQuestions(reply.value);
    r := Ok(TakePrefix(questions, count));
  }

  /** A model that answers with the numbered list it was asked for, no
      longer than requested, yields exactly those questions. */
  lemma GenerateFromNumberedList(
    traitCategory: string, count: int, model: (string, int) -> Option<string>, qs: seq<string>)
    requires |qs| > 0 && PlainQuestions(qs) && |qs| <= count
    requires model(traitCategory, count) == Some(Join(NumberedList(qs), '\n'))
    ensures GeneratedQuestions(traitCategory, count, model) == Ok(qs)
  {
    var reply := Join(NumberedList(qs), '\n');
    ParseNumberedList(qs);
    assert qs[..|qs|] == qs;
    assert TakePrefix(qs, count) == qs;
    assert GeneratedQuestions(traitCategory, count, model) == Ok(TakePrefix(ParsedQuestions(reply), count));
  }

  // ---------------------------------------------------------------- JSON

  /** The span `re.search(r'\{.*\}', text, re.DOTALL)` matches, as
      [start, end): from the first '{' to the last '}', when a '}' follows
      that '{'. The search has a match exactly when some '{' precedes some '}'. */
  function BraceSpan(text: string): (r: Option<(nat, nat)>)
    ensures r.Some? <==> exists a, b :: 0 <= a < b < |text| && text[a] == '{' && text[b] == '}'
    ensures r.Some? ==>
      && r.value.0 < r.value.1 <= |text|
      && text[r.value.0] == '{' && text[r.value.1 - 1] == '}'
      && (forall k :: 0 <= k < r.value.0 ==> text[k] != '{')
      && (forall k :: r.value.1 <= k < |text| ==> text[k] != '}')
  {
    var i := IndexOf(text, '{');
    var j := LastIndexOf(text, '}');
    if i < |text| && i < j then Some((i, j + 1)) else None
  }

  /** The text `json.loads` is applied to: the brace span, else the whole text. */
  function JsonSource(text: string): string {
    match BraceSpan(text)
    case Some((i, j)) => text[i..j]
    case None => text
  }

  /** The record returned when the reply cannot be decoded. */
  function Fallback(text: string): Json {
    Object(map["error" := Str("Failed to parse JSON response"), "raw_text" := Str(text)])
  }

  /** `_extract_json`: decode the brace span (or the whole text); on a
      decode error return the fallback record carrying the original text.
      No decode error escapes. */
  function ExtractJson(text: string, loads: string -> Option<Json>): (r: Json)
    ensures loads(JsonSource(text)).Some? ==> r == loads(JsonSource(text)).value
    ensures loads(JsonSource(text)).None? ==> r == Fallback(text) && r.fields["raw_text"] == Str(text)
  {
    match loads(JsonSource(text))
    case Some(v) => v
    case None => Fallback(text)
  }

  /** A JSON object embedded in prose is what gets decoded: prose without '{'
      before it and text without '}' after it are cut away. */
  lemma ExtractEmbeddedObject(prose: string, body: string, trailer: string)
    requires '{' !in prose && '}' !in trailer
    requires |body| >= 2 && body[0] == '{' && body[|body| - 1] == '}'
    ensures JsonSource(prose + body + trailer) == body
  {
    var text := prose + body + trailer;
    var a, b := |prose|, |prose| + |body| - 1;
    assert text[a] == '{' && text[b] == '}';
    var span := BraceSpan(text);
    assert span.Some?;
    var (i, j) := span.value;
    assert forall k :: 0 <= k < a ==> text[k] == prose[k];
    assert forall k :: b < k < |text| ==> text[k] == trailer[k - b - 1];
    assert i == a;
    assert j == b + 1;
    assert text[i..j] == body;
  }

  /** Text with no '{' is decoded whole. */
  lemma ExtractWithoutBraces(text: string)
    requires '{' !in text
    ensures JsonSource(text) == text
  {
  }

  /** A fallback record is recognisable by its `error` key and has no `score`. */
  lemma FallbackShape(text: string)
    ensures HasKey(Fallback(text), "error") && !HasKey(Fallback(text), "score")
    ensures Fallback(text).fields["raw_text"] == Str(text)
  {
    assert "score" != "error" && "score" != "raw_text";
  }

  // ---------------------------------------------------------------- analyses

  /** `analyze_response`: the model's reply, decoded; `None` where the call raises. */
  function AnalyzeResponse(
    question: string, response: string, traitCategory: string,
    model: (string, string, string) -> Option<string>, loads: string -> Option<Json>): (r: Option<Json>)
    ensures r.None? <==> model(question, response, traitCategory).None?
  {
    match model(question, response, traitCategory)
    case None => None
    case Some(reply) => Some(ExtractJson(reply, loads))
  }

  /** An analysis record the summary can read: a dict with `score` and `explanation`. */
  predicate ScoredAnalysis(analysis: Json) {
    HasKey(analysis, "score") && HasKey(analysis, "explanation")
  }

  /** One summary line; `render` is Python's `str()` of a decoded value. */
  function SummaryLine(traitCategory: string, analysis: Json, render: Json -> string): string
    requires ScoredAnalysis(analysis)
  {
    "Trait: " + traitCategory
    + ", Score: " + render(analysis.fields["score"])
    + ", Explanation: " + render(analysis.fields["explanation"])
  }

  /** The summary lines, one per analysis entry in order; `None` where a
      subscript `analysis['score']` or `analysis['explanation']` raises. */
  function SummaryLines(analyses: Dict<string, Json>, render: Json -> string): (r: Option<seq<string>>)
    ensures r.Some? <==> forall i :: 0 <= i < |analyses| ==> ScoredAnalysis(analyses[i].1)
    ensures r.Some? ==> |r.value| == |analyses|
    ensures r.Some? ==> forall i :: 0 <= i < |analyses| ==> r.value[i] == SummaryLine(analyses[i].0, analyses[i].1, render)
  {
    if |analyses| == 0 then Some([])
    else
      var n := |analyses|;
      var (t, a) := analyses[n - 1];
      match SummaryLines(analyses[..n - 1], render)
      case None => None
      case Some(lines) => if ScoredAnalysis(a) then Some(lines + [SummaryLine(t, a, render)]) else None
  }

  /** `"\n".join(...)` of the summary lines. */
  function Summary(analyses: Dict<string, Json>, render: Json -> string): Option<string> {
    match SummaryLines(analyses, render)
    case None => None
    case Some(lines) => Some(Join(lines, '\n'))
  }

  /** The summary splits back into its lines when no line holds a newline. */
  lemma SummaryLineByLine(analyses: Dict<string, Json>, render: Json -> string)
    requires |analyses| > 0
    requires forall i :: 0 <= i < |analyses| ==> ScoredAnalysis(analyses[i].1)
    requires forall i :: 0 <= i < |analyses| ==> '\n' !in SummaryLine(analyses[i].0, analyses[i].1, render)
    ensures Summary(analyses, render).Some?
    ensures |Split(Summary(analyses, render).value, '\n')| == |analyses|
    ensures Split(Summary(analyses, render).value, '\n') == SummaryLines(analyses, render).value
  {
    SplitJoin(SummaryLines(analyses, render).value, '\n');
  }

  /** `generate_personality_profile`: the summary goes to the model and the
      reply is decoded. `None` where the summary or the call raises. */
  function GeneratePersonalityProfile(
    analyses: Dict<string, Json>, render: Json -> string,
    model: string -> Option<string>, loads: string -> Option<Json>): (r: Option<Json>)
    ensures r.Some? <==>
      (forall i :: 0 <= i < |analyses| ==> ScoredAnalysis(analyses[i].1))
      && model(Summary(analyses, render).value).Some?
  {
    match Summary(analyses, render)
    case None => None
    case Some(summary) =>
      match model(summary)
      case None => None
      case Some(reply) => Some(ExtractJson(reply, loads))
  }

  /** An analysis that came back undecodable poisons the synthesis: once a
      fallback record is in the map, profile generation raises. */
  lemma FallbackBreaksProfile(
    analyses: Dict<string, Json>, i: nat, raw: string, render: Json -> string,
    model: string -> Option<string>, loads: string -> Option<Json>)
    requires i < |analyses| && analyses[i].1 == Fallback(raw)
    ensures GeneratePersonalityProfile(analyses, render, model, loads).None?
  {
    FallbackShape(raw);
  }
}
