/**
 * The mutable state of chat_bot_ai.py and the POST branch of `home()` that
 * reads and updates it. The two module-level dictionaries become fields of
 * one object; `order` is the iteration order of `faq_embeddings`.
 */
module ChatBot {
  import opened Wrappers
  import opened Gemini
  import opened SemanticIndex

  class FaqCache {
    var order: seq<string>
    var faq: map<string, string>
    var faqEmbeddings: map<string, Emb>

    /** The cache as a value. */
    function State(): (s: Index)
      reads this
    {
      Index(order, faq, faqEmbeddings)
    }

    ghost predicate Valid()
      reads this
    {
      State().Valid()
    }

    /**
     * Start-up (chat_bot_ai.py:16-24): the answers of the built-in pairs,
     * then each question's embedding, in the order of the pairs.
     */
    constructor (seed: seq<(string, string)>, embed: string -> Emb)
      ensures Valid()
      ensures State() == Seed(seed, embed)
    {
      var i := 0;
      var idx := Index([], map[], map[]);
      while i < |seed|
        invariant i <= |seed|
        invariant idx == Seed(seed[..i], embed)
      {
        assert seed[..i + 1][..i] == seed[..i];
        idx := Insert(idx, seed[i].0, seed[i].1, embed(seed[i].0));
        i := i + 1;
      }
      assert seed[..i] == seed;
      order, faq, faqEmbeddings := idx.order, idx.faq, idx.emb;
      new;
      assert State() == idx;
    }

    /**
     * The loop of chat_bot_ai.py:64-68: the key whose vector scores highest
     * against `userEmb`, the first one on ties, with its score; `NoMatch`
     * when nothing scores above -1.
     */
    method Nearest(userEmb: Emb, sim: Similarity) returns (best: ScanResult)
      requires Valid()
      ensures best == Scan(State(), userEmb, sim)
    {
      best := NoMatch;
      for i := 0 to |order|
        invariant best == ScanUpTo(order, faqEmbeddings, userEmb, sim, i)
      {
        var q := order[i];
        var score := sim(userEmb, faqEmbeddings[q]);
        if score > best.bestScore {
          best := ScanResult(Some(q), score);
        }
      }
    }

    /**
     * One POST request with a stripped, non-blank question (chat_bot_ai.py:61-78):
     * answer from the cache on a hit, otherwise ask Gemini and store the
     * question, its answer and its embedding.
     */
    method Ask(question: string, embed: string -> Emb, sim: Similarity,
               apiKey: Option<string>, outcome: CallOutcome) returns (answer: string)
      requires Valid()
      modifies this
      ensures Valid()
      ensures Response(answer, State()) == Respond(old(State()), question, embed, sim, apiKey, outcome)
    {
      var userEmb := embed(question);
      var best := Nearest(userEmb, sim);
      if best.bestScore > Threshold {
        HitHasMatch(State(), userEmb, sim);
        answer := faq[best.bestMatch.value];
      } else {
        answer := AskGemini(apiKey, outcome);
        ghost var before := State();
        InsertKeepsValid(before, question, answer, embed(question));
        if question !in faqEmbeddings {
          order := order + [question];
        }
        faq := faq[question := answer];
        faqEmbeddings := faqEmbeddings[question := embed(question)];
        assert State() == Insert(before, question, answer, embed(question));
      }
    }
  }
}
