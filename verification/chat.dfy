/** `ask_llm(question, context)`: which context goes with the question, the
    user message built from the two, and the answer returned from the chat
    model's reply.

    The chat model is a foreign call: its reply is an input, `None` when the
    message carried no content. The search ids `get_context` would obtain
    for the question are an input as well. */
module Chat {
  import opened Wrappers
  import opened PyText
  import opened Retrieval

  /** What `ask_llm` returns when the model's reply is missing or blank. */
  const EmptyAnswer: string :=
    "The model returned an empty answer." + " Please try asking again or check that the uploaded paper contains relevant text."

  /** The fixed pieces of the user message that carries a context. */
  const ContextHeader: string := "Context from the paper:\n"
  const QuestionHeader: string := "\n\nQuestion: "
  const AnswerTrailer: string := "\n\nAnswer clearly "

  /** What `ask_llm` sends as the user message, and what it returns. */
  datatype Exchange = Exchange(prompt: string, answer: string)

  /** Some search id falls outside the document list. */
  predicate AnyOutOfRange(docs: seq<Doc>, ids: seq<int>)
  {
    exists i :: 0 <= i < |ids| && !(-|docs| <= ids[i] < |docs|)
  }

  /** The context `ask_llm` works with. A context passed in, even an empty
      one, is used as it is. Otherwise the paper is searched only when an
      index exists, and a failing search is swallowed: the question then goes
      out without a context. */
  function ResolveContext(given: Option<string>, state: IndexState, ids: seq<int>): (r: Option<string>)
    ensures given.Some? ==> r == given
    ensures given.None? ==> (r.None? <==> state.index.None? || AnyOutOfRange(state.docs, ids))
    ensures given.None? && r.Some? ==> GetContext(state, ids) == Ok(r.value)
  {
    if given.Some? then given
    else if state.index.None? then None
    else
      match GetContext(state, ids)
      case Ok(c) => Some(c)
      case Err(_) => None
  }

  /** The user message: with a non-empty context, the context and the
      question framed by fixed headers; otherwise the bare question. The
      context and the question can be read back at known offsets. */
  function UserContent(question: string, context: Option<string>): (r: string)
    ensures context.None? || !Truthy(context.value) ==> r == question
    ensures context.Some? && Truthy(context.value) ==>
      var c := context.value;
      var q0 := |ContextHeader| + |c| + |QuestionHeader|;
      && |r| == q0 + |question| + |AnswerTrailer|
      && r[..|ContextHeader|] == ContextHeader
      && r[|ContextHeader|..|ContextHeader| + |c|] == c
      && r[|ContextHeader| + |c|..q0] == QuestionHeader
      && r[q0..q0 + |question|] == question
      && r[q0 + |question|..] == AnswerTrailer
  {
    match context
    case Some(c) =>
      if Truthy(c) then
        var r := ContextHeader + c + QuestionHeader + question + AnswerTrailer;
        ReadBack(ContextHeader, c, QuestionHeader, question, AnswerTrailer);
        r
      else question
    case None => question
  }

  /** Each of five concatenated strings sits at the offset the lengths
      before it add up to. */
  lemma ReadBack(a: string, b: string, c: string, d: string, e: string)
    ensures var s := a + b + c + d + e;
      && |s| == |a| + |b| + |c| + |d| + |e|
      && s[..|a|] == a
      && s[|a|..|a| + |b|] == b
      && s[|a| + |b|..|a| + |b| + |c|] == c
      && s[|a| + |b| + |c|..|a| + |b| + |c| + |d|] == d
      && s[|a| + |b| + |c| + |d|..] == e
  {
    var s := a + b + c + d + e;
    assert s == (((a + b) + c) + d) + e;
    assert s[..|a|] == a by {
      assert forall i :: 0 <= i < |a| ==> s[i] == a[i];
    }
    assert s[|a|..|a| + |b|] == b by {
      assert forall i :: 0 <= i < |b| ==> s[|a| + i] == b[i];
    }
    assert s[|a| + |b|..|a| + |b| + |c|] == c by {
      assert forall i :: 0 <= i < |c| ==> s[|a| + |b| + i] == c[i];
    }
    assert s[|a| + |b| + |c|..|a| + |b| + |c| + |d|] == d by {
      assert forall i :: 0 <= i < |d| ==> s[|a| + |b| + |c| + i] == d[i];
    }
    assert s[|a| + |b| + |c| + |d|..] == e by {
      assert forall i :: 0 <= i < |e| ==> s[|a| + |b| + |c| + |d| + i] == e[i];
    }
  }

  /** The answer: the reply without surrounding whitespace, or the fixed
      notice when the reply is missing or blank. Never empty, never padded. */
  function FinalAnswer(reply: Option<string>): (r: string)
    ensures Truthy(r) && Trimmed(r)
    ensures reply.None? || AllSpace(reply.value) ==> r == EmptyAnswer
    ensures reply.Some? && !AllSpace(reply.value) ==>
      var k := SpaceRun(reply.value);
      && k + |r| <= |reply.value|
      && r == reply.value[k..k + |r|]
      && AllSpace(reply.value[k + |r|..])
  {
    EmptyAnswerShape();
    if reply.None? then EmptyAnswer
    else
      var s := Strip(reply.value);
      StripEmptyIffBlank(reply.value);
      StripShape(reply.value);
      if s == [] then EmptyAnswer else s
  }

  /** The fixed notice is non-empty and has no surrounding whitespace. */
  lemma EmptyAnswerShape()
    ensures Truthy(EmptyAnswer) && Trimmed(EmptyAnswer)
  {
    assert EmptyAnswer[0] == 'T';
    assert EmptyAnswer[|EmptyAnswer| - 1] == '.';
  }

  /** Feeding an answer back through the same clean-up leaves it unchanged. */
  lemma FinalAnswerIdempotent(reply: Option<string>)
    ensures FinalAnswer(Some(FinalAnswer(reply))) == FinalAnswer(reply)
  {
    var r := FinalAnswer(reply);
    assert !IsSpace(r[0]);
    assert r == [] + r + [];
    StripExact([], r, []);
  }

  /** `ask_llm`: the context is resolved, the user message built from it and
      the question, and the reply to that message cleaned up. */
  function AskLlm(question: string, given: Option<string>, state: IndexState, ids: seq<int>,
                  reply: Option<string>): (r: Exchange)
    ensures Truthy(r.answer) && Trimmed(r.answer)
    ensures r.answer == FinalAnswer(reply)
    ensures given.None? && state.index.None? ==> r.prompt == question
    ensures given.Some? ==> r.prompt == UserContent(question, given)
  {
    Exchange(UserContent(question, ResolveContext(given, state, ids)), FinalAnswer(reply))
  }

  /** The embedded texts at the search ids, in id order. An id of -1, the
      padding of a search over fewer vectors than asked for, counts from the
      end as Python's indexing does. */
  function Lookup(texts: seq<string>, ids: seq<int>): (r: seq<string>)
    requires forall i :: 0 <= i < |ids| ==> -|texts| <= ids[i] < |texts|
    ensures |r| == |ids|
    ensures forall i :: 0 <= i < |ids| ==> At(texts, ids[i]) == Some(r[i])
  {
    seq(|ids|, i requires 0 <= i < |ids| => texts[if ids[i] < 0 then |texts| + ids[i] else ids[i]])
  }

  /** Right after a successful `build_index`, a question asked without a
      context resolves to the embedded texts the search picked, joined by the
      separator. */
  lemma AskAfterBuild(question: string, state: IndexState, pdfPath: string, pageWords: seq<seq<string>>,
                      figures: seq<seq<Option<string>>>, ids: seq<int>, reply: Option<string>)
    requires BuildIndex(state, pdfPath, pageWords, figures).result.Ok?
    requires forall i :: 0 <= i < |ids| ==>
      -|BuildIndex(state, pdfPath, pageWords, figures).state.index.value| <= ids[i]
        < |BuildIndex(state, pdfPath, pageWords, figures).state.index.value|
    ensures ResolveContext(None, BuildIndex(state, pdfPath, pageWords, figures).state, ids)
      == Some(Join(Lookup(BuildIndex(state, pdfPath, pageWords, figures).state.index.value, ids), ContextSeparator))
  {
    var s := BuildIndex(state, pdfPath, pageWords, figures).state;
    ContextMatchesIndex(s, ids);
    ResolvedFromIndex(s, ids);
  }

  /** Right after a successful `build_index`, the message `ask_llm` sends
      for a question asked without a context is the question with the
      searched context: framed by the headers when the join is non-empty, the
      bare question otherwise. */
  lemma AskAfterBuildPrompt(question: string, state: IndexState, pdfPath: string, pageWords: seq<seq<string>>,
                            figures: seq<seq<Option<string>>>, ids: seq<int>, reply: Option<string>)
    requires BuildIndex(state, pdfPath, pageWords, figures).result.Ok?
    requires forall i :: 0 <= i < |ids| ==>
      -|BuildIndex(state, pdfPath, pageWords, figures).state.index.value| <= ids[i]
        < |BuildIndex(state, pdfPath, pageWords, figures).state.index.value|
    ensures AskLlm(question, None, BuildIndex(state, pdfPath, pageWords, figures).state, ids, reply).prompt
      == UserContent(question, Some(Join(Lookup(BuildIndex(state, pdfPath, pageWords, figures).state.index.value, ids), ContextSeparator)))
  {
    AskAfterBuild(question, state, pdfPath, pageWords, figures, ids, reply);
  }

  /** When the document list and the index agree, the retrieved context is
      the join of the embedded texts at the search ids. */
  lemma ResolvedFromIndex(s: IndexState, ids: seq<int>)
    requires s.index.Some?
    requires forall i :: 0 <= i < |ids| ==> -|s.index.value| <= ids[i] < |s.index.value|
    requires GetContext(s, ids).Ok?
    requires forall i :: 0 <= i < |ids| ==> Some(Retrieve(s.docs, ids).value[i]) == At(s.index.value, ids[i])
    ensures ResolveContext(None, s, ids) == Some(Join(Lookup(s.index.value, ids), ContextSeparator))
  {
    var looked := Lookup(s.index.value, ids);
    assert forall i :: 0 <= i < |ids| ==> Retrieve(s.docs, ids).value[i] == looked[i];
    assert Retrieve(s.docs, ids).value == looked;
  }
}
