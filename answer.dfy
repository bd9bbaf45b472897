/** `answer_medical_question`: ground a completion request in the retrieved snippets and turn its
    outcome into the answer text and its source list. The search request and the completion
    request are foreign calls, passed in as functions from their input to their outcome. */
module Answer {
  import opened Text
  import opened Search

  /** The outcome of the completion request: the message content, or the raised error's text. */
  datatype Completion = Reply(content: string) | Raised(detail: string)

  /** What `answer_medical_question` returns: the answer text and the `(title, link)` sources. */
  datatype Answer = Answer(text: string, sources: seq<(string, string)>)

  const NoSourcesMessage: string := "Sorry, no reliable sources available now."
  const Disclaimer: string := "\n\n**Disclaimer:** Always consult your healthcare provider."
  const ErrorPrefix: string := "OpenAI API Error: "

  /** One context line, `- **title**: snippet`. */
  function Line(s: Snippet): (r: string)
    ensures Contains(r, s.title) && Contains(r, s.text)
  {
    var r := "- **" + s.title + "**: " + s.text;
    ContainsMiddle("- **", s.title, "**: " + s.text);
    assert r == "- **" + s.title + ("**: " + s.text);
    ContainsEnd("- **" + s.title + "**: ", s.text);
    r
  }

  function Lines(snippets: seq<Snippet>): (r: seq<string>)
    ensures |r| == |snippets| && forall i :: 0 <= i < |snippets| ==> r[i] == Line(snippets[i])
  {
    seq(|snippets|, i requires 0 <= i < |snippets| => Line(snippets[i]))
  }

  /** `"\n".join(...)` of the context lines: it holds every snippet's line. */
  function Context(snippets: seq<Snippet>): (r: string)
    ensures forall i :: 0 <= i < |snippets| ==> Contains(r, Line(snippets[i]))
  {
    JoinContainsAll("\n", Lines(snippets));
    Join("\n", Lines(snippets))
  }

  /** `[(title, link) for title, link, snippet in snippets]`. */
  function Sources(snippets: seq<Snippet>): (r: seq<(string, string)>)
    ensures |r| == |snippets|
    ensures forall i :: 0 <= i < |snippets| ==> r[i] == (snippets[i].title, snippets[i].link)
  {
    seq(|snippets|, i requires 0 <= i < |snippets| => (snippets[i].title, snippets[i].link))
  }

  /** The fixed instructions that open the prompt. */
  const PromptHead: string :=
    "\nAnswer clearly using snippets below.\n"
    + "Mention both common and serious conditions if symptoms provided.\n"
    + "End with: \"Talk to a doctor to be sure.\"\n\nSnippets:\n"
  const QuestionTag: string := "\n\nQuestion: "
  const AnswerTag: string := "\n\nAnswer:\n"

  /** What the template fills in between the instructions and the answer cue. */
  function PromptMiddle(context: string, question: string): (r: string)
    ensures Contains(r, context) && Contains(r, question)
  {
    var r := (context + QuestionTag) + question;
    ContainsSelf(context);
    ContainsAppended(context, QuestionTag, context);
    ContainsAppended(context + QuestionTag, question, context);
    ContainsEnd(context + QuestionTag, question);
    r
  }

  /** The prompt template, filled with the context and the question: it opens with the fixed
      instructions, ends with the answer cue, and carries both the context and the question. */
  function Prompt(context: string, question: string): (r: string)
    ensures |r| >= |PromptHead| + |AnswerTag|
    ensures r[..|PromptHead|] == PromptHead && r[|r| - |AnswerTag|..] == AnswerTag
    ensures Contains(r, context) && Contains(r, question)
  {
    var m := PromptMiddle(context, question);
    ConcatEnds(PromptHead, m, AnswerTag);
    ContainsMiddle(PromptHead, m, AnswerTag);
    ContainsTransitive(PromptHead + m + AnswerTag, m, context);
    ContainsTransitive(PromptHead + m + AnswerTag, m, question);
    PromptHead + m + AnswerTag
  }

  /** The body of `answer_medical_question` after the snippets are known. Without snippets it
      is the no-sources answer; otherwise its sources are none or all of the snippets'. */
  function AnswerFromSnippets(question: string, snippets: seq<Snippet>, complete: string -> Completion)
    : (r: Answer)
    ensures snippets == [] ==> r == Answer(NoSourcesMessage, [])
    ensures r.sources == [] || r.sources == Sources(snippets)
  {
    if snippets == [] then Answer(NoSourcesMessage, [])
    else
      match complete(Prompt(Context(snippets), question))
      case Reply(content) => Answer(Strip(content) + Disclaimer, Sources(snippets))
      case Raised(detail) => Answer(ErrorPrefix + detail, [])
  }

  /** `answer_medical_question(question)`: fetch the snippets, then answer from them. The
      sources it lists keep the nhs.uk-first order of the search results. */
  function AnswerMedicalQuestion(question: string, search: string -> SearchResponse,
                                 complete: string -> Completion): (r: Answer)
    ensures NhsLinksFirst(SourceLinks(r.sources))
  {
    var snippets := MedicalSnippets(search(question));
    MedicalSnippetsNhsFirst(search(question));
    SourcesAllOrNothing(question, snippets, complete);
    AnswerFromSnippets(question, snippets, complete)
  }

  /** Without snippets the answer is the fixed no-sources message with no sources, and the
      completion is never consulted: any two completion backends give the same answer. */
  lemma NoSnippetsShortCircuit(question: string, complete: string -> Completion,
                               other: string -> Completion)
    ensures AnswerFromSnippets(question, [], complete) == Answer(NoSourcesMessage, [])
    ensures AnswerFromSnippets(question, [], complete) == AnswerFromSnippets(question, [], other)
  {
  }

  /** The context is the snippets' lines separated by single newlines: adding a snippet adds a
      newline and its line. */
  lemma ContextAppend(snippets: seq<Snippet>, s: Snippet)
    requires snippets != []
    ensures Context(snippets + [s]) == Context(snippets) + "\n" + Line(s)
  {
    assert Lines(snippets + [s])[..|snippets|] == Lines(snippets);
  }

  /** The prompt carries the question and every snippet's context line. */
  lemma PromptMentions(question: string, snippets: seq<Snippet>)
    ensures Contains(Prompt(Context(snippets), question), question)
    ensures forall i :: 0 <= i < |snippets| ==>
              Contains(Prompt(Context(snippets), question), Line(snippets[i]))
  {
    var context := Context(snippets);
    var p := Prompt(context, question);
    forall i | 0 <= i < |snippets|
      ensures Contains(p, Line(snippets[i]))
    {
      ContainsTransitive(p, context, Line(snippets[i]));
    }
  }

  /** With snippets and a reply, the answer is the stripped reply followed by the disclaimer,
      and the sources are the snippets' `(title, link)` pairs, one per snippet, in order. */
  lemma AnswerOnReply(question: string, snippets: seq<Snippet>, complete: string -> Completion)
    requires snippets != [] && complete(Prompt(Context(snippets), question)).Reply?
    ensures var a := AnswerFromSnippets(question, snippets, complete);
            var content := complete(Prompt(Context(snippets), question)).content;
            && |a.text| >= |Disclaimer|
            && a.text[..|a.text| - |Disclaimer|] == Strip(content)
            && a.text[|a.text| - |Disclaimer|..] == Disclaimer
            && |a.sources| == |snippets|
            && forall i :: 0 <= i < |snippets| ==> a.sources[i] == (snippets[i].title, snippets[i].link)
  {
    var a := AnswerFromSnippets(question, snippets, complete);
    var body := Strip(complete(Prompt(Context(snippets), question)).content);
    assert a.text == body + Disclaimer;
    assert a.text[..|body|] == body;
  }

  /** The reply is stripped before the disclaimer is added: the part of the answer before the
      disclaimer neither starts nor ends with whitespace. */
  lemma AnswerReplyStripped(question: string, snippets: seq<Snippet>, complete: string -> Completion)
    requires snippets != [] && complete(Prompt(Context(snippets), question)).Reply?
    ensures var a := AnswerFromSnippets(question, snippets, complete);
            var body := |a.text| - |Disclaimer|;
            body == 0 || (!IsSpace(a.text[0]) && !IsSpace(a.text[body - 1]))
  {
    var content := complete(Prompt(Context(snippets), question)).content;
    var body := Strip(content);
    var a := AnswerFromSnippets(question, snippets, complete);
    assert a.text == body + Disclaimer;
    if body != [] {
      assert a.text[0] == body[0];
      assert a.text[|body| - 1] == body[|body| - 1];
    }
  }

  /** With snippets and a failed completion, the answer is the error text and there are no
      sources. */
  lemma AnswerOnRaised(question: string, snippets: seq<Snippet>, complete: string -> Completion)
    requires snippets != [] && complete(Prompt(Context(snippets), question)).Raised?
    ensures var a := AnswerFromSnippets(question, snippets, complete);
            var detail := complete(Prompt(Context(snippets), question)).detail;
            && a.sources == []
            && a.text == ErrorPrefix + detail
            && Contains(a.text, detail)
  {
    var detail := complete(Prompt(Context(snippets), question)).detail;
    ContainsMiddle(ErrorPrefix, detail, "");
    assert ErrorPrefix + detail + "" == ErrorPrefix + detail;
  }

  /** Every source is the `(title, link)` of a snippet the prompt was built from, at the same
      position: the sources are never anything but the retrieved snippets. */
  lemma SourcesFromSnippets(question: string, snippets: seq<Snippet>, complete: string -> Completion)
    ensures var a := AnswerFromSnippets(question, snippets, complete);
            && |a.sources| <= |snippets|
            && forall i :: 0 <= i < |a.sources| ==> a.sources[i] == (snippets[i].title, snippets[i].link)
  {
  }

  /** End to end: a failed search, or a search whose items lack a field, gives the no-sources
      answer without consulting the completion. */
  lemma FailedSearchAnswer(question: string, search: string -> SearchResponse,
                           complete: string -> Completion)
    requires search(question).Unavailable? || search(question) == Decoded(Wrappers.None) ||
             (search(question).Decoded? && search(question).items.Some? &&
              exists i :: 0 <= i < |search(question).items.value| &&
                          !HasFields(search(question).items.value[i]))
    ensures AnswerMedicalQuestion(question, search, complete) == Answer(NoSourcesMessage, [])
  {
    var response := search(question);
    if response.Decoded? && response.items.Some? {
      var i :| 0 <= i < |response.items.value| && !HasFields(response.items.value[i]);
      MedicalSnippetsMissingField(response.items.value, i);
    }
  }

  /** The links of a source list. */
  function SourceLinks(sources: seq<(string, string)>): (r: seq<string>)
    ensures |r| == |sources| && forall i :: 0 <= i < |sources| ==> r[i] == sources[i].1
  {
    seq(|sources|, i requires 0 <= i < |sources| => sources[i].1)
  }

  /** The source list is either empty or the snippets' sources, whose links are the snippets'
      links in the same order (so the nhs.uk-first order of `MedicalSnippetsNhsFirst` carries
      over to the sources). */
  lemma SourcesAllOrNothing(question: string, snippets: seq<Snippet>, complete: string -> Completion)
    ensures var src := AnswerFromSnippets(question, snippets, complete).sources;
            src == [] || (src == Sources(snippets) && SourceLinks(src) == Links(snippets))
  {
    var src := AnswerFromSnippets(question, snippets, complete).sources;
    if src != [] {
      assert src == Sources(snippets);
      assert SourceLinks(src) == Links(snippets);
    }
  }
}
