/**
  The grounding decision of `generate_chatgpt_response`: keep the ranked
  candidates whose score reaches the threshold, then build either the
  ungrounded request (no candidate kept) or the grounded one (the kept texts
  pasted into the prompt in ranked order).  The query embedding is a
  parameter (the embedding service is not modelled) and the model stops at
  the chat request, before the streamed completion.
 */
module Grounding {
  import opened PyStrings
  import opened Similarity
  import opened Ranking

  /** Defaults of `generate_chatgpt_response`, which the session loop never overrides. */
  const DefaultThreshold: real := 0.5
  const DefaultTopK: int := 3

  const ChatModel := "gpt-4"
  const SystemContent := "You are a helpful assistant."
  const NoDataResponse := "I could not find relevant data in the database. Here's what I can tell you based on my knowledge:"
  const PromptHead := "The user asked: "
  const ContextIntro := "\n\nHere is some context that might help:\n"
  const PromptTail := "\n\nNow, generate a response based on the above context."

  datatype Message = Message(role: string, content: string)

  /** The arguments of `openai.chat.completions.create`. */
  datatype ChatRequest = ChatRequest(model: string, messages: seq<Message>, stream: bool)

  /**
    What one call of `generate_chatgpt_response` decides before streaming:
    the candidates it prints when `show_scores` is set, which branch it
    takes, and the completion request it sends.
   */
  datatype Answer = Answer(shown: seq<Scored>, grounded: bool, request: ChatRequest)

  /** `[(text, score) for text, score in ranked if score >= score_threshold]`. */
  function SelectContext(ranked: seq<Scored>, threshold: real): (kept: seq<Scored>)
    ensures |kept| <= |ranked|
    ensures forall x :: x in kept <==> x in ranked && x.score >= threshold
  {
    if ranked == [] then []
    else
      var rest := SelectContext(ranked[1..], threshold);
      assert forall x :: x in ranked <==> x == ranked[0] || x in ranked[1..];
      (if ranked[0].score >= threshold then [ranked[0]] else []) + rest
  }

  /** `[text for text, _ in high_score_texts]`. */
  function Texts(kept: seq<Scored>): (texts: seq<string>)
    ensures |texts| == |kept|
    ensures forall j :: 0 <= j < |kept| ==> texts[j] == kept[j].text
  {
    seq(|kept|, j requires 0 <= j < |kept| => kept[j].text)
  }

  /** The user message of the ungrounded branch. */
  function UngroundedPrompt(query: string): string {
    NoDataResponse + " " + query
  }

  /** The user message of the grounded branch. */
  function GroundedPrompt(query: string, texts: seq<string>): string {
    PromptHead + query + ContextIntro + Join("\n", texts) + PromptTail
  }

  /** Both branches send the same system message, model and streaming flag. */
  function ChatFor(userContent: string): ChatRequest {
    ChatRequest(ChatModel, [Message("system", SystemContent), Message("user", userContent)], true)
  }

  /** `generate_chatgpt_response(query, stored_embeddings, show_scores, ...)` up to the request it sends. */
  function Respond(query: string, q: Vector, corpus: seq<Record>, showScores: bool,
                   threshold: real, topK: int): (a: Answer)
    ensures a.request.model == ChatModel && a.request.stream
    ensures |a.request.messages| == 2
    ensures a.request.messages[0] == Message("system", SystemContent)
    ensures a.request.messages[1].role == "user"
    ensures a.grounded <==>
              exists j :: 0 <= j < |Retrieve(q, corpus, topK)| && Retrieve(q, corpus, topK)[j].score >= threshold
    ensures !a.grounded ==> a.request.messages[1].content == UngroundedPrompt(query)
    ensures a.grounded ==>
              a.request.messages[1].content ==
                GroundedPrompt(query, Texts(SelectContext(Retrieve(q, corpus, topK), threshold)))
  {
    var ranked := Retrieve(q, corpus, topK);
    var kept := SelectContext(ranked, threshold);
    assert kept != [] ==> kept[0] in kept;
    var shown := if showScores then ranked else [];
    if kept == [] then
      Answer(shown, false, ChatFor(UngroundedPrompt(query)))
    else
      Answer(shown, true, ChatFor(GroundedPrompt(query, Texts(kept))))
  }

  /**
    The session loop of `main` always calls with the defaults: at most three
    candidates are ranked and shown, every kept one scores at least 0.5, and
    the answer is grounded exactly when one of them is kept.
   */
  lemma SessionDefaults(query: string, q: Vector, corpus: seq<Record>, showScores: bool)
    ensures var a := Respond(query, q, corpus, showScores, DefaultThreshold, DefaultTopK);
            var ranked := Retrieve(q, corpus, DefaultTopK);
            var kept := SelectContext(ranked, DefaultThreshold);
            && |ranked| == Min(3, |corpus|)
            && |a.shown| <= 3
            && |kept| <= 3
            && (forall x :: x in kept ==> x.score >= 0.5)
            && (a.grounded <==> kept != [])
  {
    var ranked := Retrieve(q, corpus, DefaultTopK);
    var kept := SelectContext(ranked, DefaultThreshold);
    if kept != [] {
      assert kept[0] in kept;
    } else {
      forall j | 0 <= j < |ranked|
        ensures ranked[j].score < DefaultThreshold
      {
        assert ranked[j] in ranked;
      }
    }
  }

  /** The filter commutes with concatenation: the kept candidates stay in ranked order. */
  lemma {:induction false} SelectDistributes(a: seq<Scored>, b: seq<Scored>, threshold: real)
    ensures SelectContext(a + b, threshold) == SelectContext(a, threshold) + SelectContext(b, threshold)
    decreases |a|
  {
    if a == [] {
      assert a + b == b;
    } else {
      assert (a + b)[1..] == a[1..] + b;
      SelectDistributes(a[1..], b, threshold);
    }
  }

  /**
    Raising the threshold only drops candidates: the list kept at the higher
    threshold is the list kept at the lower one, filtered again, so it is
    never longer.
   */
  lemma {:induction false} SelectMonotone(ranked: seq<Scored>, t1: real, t2: real)
    requires t1 <= t2
    ensures SelectContext(ranked, t2) == SelectContext(SelectContext(ranked, t1), t2)
    ensures |SelectContext(ranked, t2)| <= |SelectContext(ranked, t1)|
    decreases |ranked|
  {
    if ranked != [] {
      SelectMonotone(ranked[1..], t1, t2);
      var head := if ranked[0].score >= t1 then [ranked[0]] else [];
      SelectDistributes(head, SelectContext(ranked[1..], t1), t2);
    }
  }

  /**
    On a list ranked by non-increasing score the threshold cuts a prefix:
    everything kept comes first and everything after it is below the
    threshold.
   */
  lemma {:induction false} SelectRankedIsPrefix(ranked: seq<Scored>, threshold: real)
    requires NonIncreasing(ranked)
    ensures var kept := SelectContext(ranked, threshold);
            && kept == ranked[..|kept|]
            && forall j :: |kept| <= j < |ranked| ==> ranked[j].score < threshold
    decreases |ranked|
  {
    if ranked != [] {
      NonIncreasingTail(ranked);
      if ranked[0].score >= threshold {
        SelectRankedIsPrefix(ranked[1..], threshold);
        KeptPrefixStep(ranked, SelectContext(ranked[1..], threshold), SelectContext(ranked, threshold), threshold);
      } else {
        SelectAllBelow(ranked, threshold);
      }
    }
  }

  /** The first candidate kept in front of a kept prefix of the rest is a kept prefix of the whole list. */
  lemma KeptPrefixStep(ranked: seq<Scored>, rest: seq<Scored>, kept: seq<Scored>, threshold: real)
    requires ranked != [] && kept == [ranked[0]] + rest && |rest| < |ranked|
    requires rest == ranked[1..][..|rest|]
    requires forall j :: |rest| <= j < |ranked[1..]| ==> ranked[1..][j].score < threshold
    ensures kept == ranked[..|kept|]
    ensures forall j :: |kept| <= j < |ranked| ==> ranked[j].score < threshold
  {
    assert [ranked[0]] + ranked[1..][..|rest|] == ranked[..|rest| + 1];
    forall j | |kept| <= j < |ranked|
      ensures ranked[j].score < threshold
    {
      assert ranked[j] == ranked[1..][j - 1];
    }
  }

  /** No candidate reaches the threshold: nothing is kept. */
  lemma {:induction false} SelectAllBelow(ranked: seq<Scored>, threshold: real)
    requires forall j :: 0 <= j < |ranked| ==> ranked[j].score < threshold
    ensures SelectContext(ranked, threshold) == []
    decreases |ranked|
  {
    if ranked != [] {
      assert forall j :: 0 <= j < |ranked[1..]| ==> ranked[1..][j] == ranked[j + 1];
      SelectAllBelow(ranked[1..], threshold);
    }
  }

  lemma NonIncreasingTail(ranked: seq<Scored>)
    requires NonIncreasing(ranked) && ranked != []
    ensures NonIncreasing(ranked[1..])
    ensures forall j :: 1 <= j < |ranked| ==> ranked[j] == ranked[1..][j - 1] && ranked[j].score <= ranked[0].score
  {
    forall j, k | 0 <= j < k < |ranked[1..]|
      ensures ranked[1..][j].score >= ranked[1..][k].score
    {
      assert ranked[1..][j] == ranked[j + 1] && ranked[1..][k] == ranked[k + 1];
    }
  }

  /**
    `show_scores` only decides whether the ranked candidates are printed: it
    changes neither the branch nor the request.
   */
  lemma ShowScoresOnlyPrints(query: string, q: Vector, corpus: seq<Record>, threshold: real, topK: int)
    ensures var on := Respond(query, q, corpus, true, threshold, topK);
            var off := Respond(query, q, corpus, false, threshold, topK);
            && on.request == off.request
            && on.grounded == off.grounded
            && on.shown == Retrieve(q, corpus, topK)
            && off.shown == []
  {
  }

  /**
    The ungrounded request carries no corpus text: whenever two corpora both
    fall back to it, the requests for the same query are identical.
   */
  lemma UngroundedIgnoresCorpus(query: string, q1: Vector, c1: seq<Record>, q2: Vector, c2: seq<Record>,
                                threshold: real, topK: int)
    requires !Respond(query, q1, c1, false, threshold, topK).grounded
    requires !Respond(query, q2, c2, false, threshold, topK).grounded
    ensures Respond(query, q1, c1, false, threshold, topK).request ==
            Respond(query, q2, c2, false, threshold, topK).request
  {
  }

  /** A threshold above every stored record's score always takes the ungrounded branch. */
  lemma ThresholdAboveAllScores(query: string, q: Vector, corpus: seq<Record>, showScores: bool,
                                threshold: real, topK: int)
    requires forall i :: 0 <= i < |corpus| ==> Dot(q, corpus[i].embedding) < threshold
    ensures !Respond(query, q, corpus, showScores, threshold, topK).grounded
    ensures Respond(query, q, corpus, showScores, threshold, topK).request.messages[1].content
            == NoDataResponse + " " + query
  {
    RetrieveIsStableTopK(q, corpus, topK);
  }

  /**
    The context block of a grounded prompt is exactly the kept texts joined
    by newlines; when no text holds a newline, splitting that block on
    newlines gives the texts back in ranked order.
   */
  lemma GroundedPromptRecoversContext(query: string, texts: seq<string>)
    ensures var p := GroundedPrompt(query, texts);
            var start := |PromptHead + query + ContextIntro|;
            && start + |PromptTail| <= |p|
            && p[..start] == PromptHead + query + ContextIntro
            && p[|p| - |PromptTail|..] == PromptTail
            && p[start..|p| - |PromptTail|] == Join("\n", texts)
    ensures |texts| >= 1 && (forall k :: 0 <= k < |texts| ==> '\n' !in texts[k]) ==>
              var p := GroundedPrompt(query, texts);
              Split(p[|PromptHead + query + ContextIntro|..|p| - |PromptTail|], "\n") == texts
  {
    var p := GroundedPrompt(query, texts);
    var head := PromptHead + query + ContextIntro;
    var body := Join("\n", texts);
    assert p == head + body + PromptTail;
    assert p[|head|..|p| - |PromptTail|] == body;
    if |texts| >= 1 && (forall k :: 0 <= k < |texts| ==> '\n' !in texts[k]) {
      SplitJoinChar(texts, '\n');
    }
  }
}
