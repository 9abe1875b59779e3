/**
 * The semantic FAQ cache of chat_bot_ai.py as values: the two dictionaries
 * `faq` and `faq_embeddings`, the nearest-question scan, the hit/miss
 * decision and the write-back on a miss.
 *
 * The sentence encoder and `util.pytorch_cos_sim` are not modelled: they are
 * the function parameters `embed` and `sim`, of which nothing is assumed
 * except where a lemma says so.
 */
module SemanticIndex {
  import opened Wrappers
  import opened Gemini

  /** An embedding vector as the encoder returns it. */
  type Emb = seq<real>

  /** The cosine similarity of two embeddings, left uninterpreted. */
  type Similarity = (Emb, Emb) -> real

  /** A score above this is a cache hit (chat_bot_ai.py:71). */
  const Threshold: real := 0.5

  /** The two local variables `best_match`, `best_score` of the scan. */
  datatype ScanResult = ScanResult(bestMatch: Option<string>, bestScore: real)

  /** Their values before the first entry is looked at (chat_bot_ai.py:64). */
  const NoMatch: ScanResult := ScanResult(None, -1.0)

  /**
   * The module-level state: `faq` (question to answer), `faq_embeddings`
   * (question to vector) and `order`, the iteration order of
   * `faq_embeddings`, which for a Python dict is insertion order.
   */
  datatype Index = Index(order: seq<string>, faq: map<string, string>, emb: map<string, Emb>)
  {
    /** Both dictionaries have the same keys, and `order` lists each key once. */
    ghost predicate Valid()
    {
      && faq.Keys == emb.Keys
      && KeysIn(order, emb)
      && (forall k :: k in emb ==> k in order)
      && (forall i, j :: 0 <= i < j < |order| ==> order[i] != order[j])
    }
  }

  /** Every key listed in `order` is a key of `emb`. */
  ghost predicate KeysIn(order: seq<string>, emb: map<string, Emb>)
  {
    forall i :: 0 <= i < |order| ==> order[i] in emb
  }

  /**
   * `best_match`, `best_score` after the loop of chat_bot_ai.py:65-68 has
   * looked at the first `n` keys: a new key replaces the current best only
   * when its score is strictly greater.
   */
  function ScanUpTo(order: seq<string>, emb: map<string, Emb>, u: Emb, sim: Similarity, n: nat): (best: ScanResult)
    requires n <= |order| && KeysIn(order, emb)
  {
    if n == 0 then NoMatch
    else
      var best := ScanUpTo(order, emb, u, sim, n - 1);
      var score := sim(u, emb[order[n - 1]]);
      if score > best.bestScore then ScanResult(Some(order[n - 1]), score) else best
  }

  /** The scan over the whole of `faq_embeddings`. */
  function Scan(idx: Index, u: Emb, sim: Similarity): (best: ScanResult)
    requires idx.Valid()
  {
    ScanUpTo(idx.order, idx.emb, u, sim, |idx.order|)
  }

  /** The router's test `best_score > 0.5`. */
  predicate IsHit(r: ScanResult)
  {
    r.bestScore > Threshold
  }

  /** The best score never drops below its start value and bounds every score seen. */
  lemma {:induction false} ScanBounds(order: seq<string>, emb: map<string, Emb>, u: Emb, sim: Similarity, n: nat)
    requires n <= |order| && KeysIn(order, emb)
    ensures ScanUpTo(order, emb, u, sim, n).bestScore >= -1.0
    ensures forall i :: 0 <= i < n ==> sim(u, emb[order[i]]) <= ScanUpTo(order, emb, u, sim, n).bestScore
  {
    if n > 0 {
      ScanBounds(order, emb, u, sim, n - 1);
    }
  }

  /**
   * `best_match` stays None, and `best_score` stays -1, exactly when no score
   * exceeds -1; in particular when there are no keys at all.
   */
  lemma {:induction false} ScanNoMatch(order: seq<string>, emb: map<string, Emb>, u: Emb, sim: Similarity, n: nat)
    requires n <= |order| && KeysIn(order, emb)
    ensures ScanUpTo(order, emb, u, sim, n).bestMatch.None?
            <==> forall i :: 0 <= i < n ==> sim(u, emb[order[i]]) <= -1.0
    ensures ScanUpTo(order, emb, u, sim, n).bestMatch.None? ==> ScanUpTo(order, emb, u, sim, n) == NoMatch
  {
    if n > 0 {
      ScanNoMatch(order, emb, u, sim, n - 1);
      ScanBounds(order, emb, u, sim, n - 1);
    }
  }

  /**
   * When a match is found, it is the key at some position `j`, its score is
   * the best score, and every key before `j` scores strictly less: the scan
   * returns the first maximum in iteration order.
   */
  lemma {:induction false} ScanFirstWins(order: seq<string>, emb: map<string, Emb>, u: Emb, sim: Similarity, n: nat)
    returns (j: nat)
    requires n <= |order| && KeysIn(order, emb)
    requires ScanUpTo(order, emb, u, sim, n).bestMatch.Some?
    ensures j < n && ScanUpTo(order, emb, u, sim, n).bestMatch == Some(order[j])
    ensures ScanUpTo(order, emb, u, sim, n).bestScore == sim(u, emb[order[j]]) > -1.0
    ensures forall i :: 0 <= i < j ==> sim(u, emb[order[i]]) < ScanUpTo(order, emb, u, sim, n).bestScore
  {
    var best := ScanUpTo(order, emb, u, sim, n - 1);
    var score := sim(u, emb[order[n - 1]]);
    ScanBounds(order, emb, u, sim, n - 1);
    if score > best.bestScore {
      j := n - 1;
    } else {
      j := ScanFirstWins(order, emb, u, sim, n - 1);
    }
  }

  /**
   * Tie-break: the scan settles on the earliest key whose score is maximal,
   * even when later keys reach the same score.
   */
  lemma ScanPicksEarliestMaximum(idx: Index, u: Emb, sim: Similarity, i: nat)
    requires idx.Valid() && i < |idx.order|
    requires sim(u, idx.emb[idx.order[i]]) > -1.0
    requires forall k :: 0 <= k < |idx.order| ==> sim(u, idx.emb[idx.order[k]]) <= sim(u, idx.emb[idx.order[i]])
    requires forall k :: 0 <= k < i ==> sim(u, idx.emb[idx.order[k]]) < sim(u, idx.emb[idx.order[i]])
    ensures Scan(idx, u, sim) == ScanResult(Some(idx.order[i]), sim(u, idx.emb[idx.order[i]]))
  {
    var n := |idx.order|;
    ScanBounds(idx.order, idx.emb, u, sim, n);
    ScanNoMatch(idx.order, idx.emb, u, sim, n);
    var j := ScanFirstWins(idx.order, idx.emb, u, sim, n);
  }

  /**
   * Whenever the hit branch runs there is a best match, and it is a key of
   * `faq`, so `faq[best_match]` (chat_bot_ai.py:72) is defined.
   */
  lemma HitHasMatch(idx: Index, u: Emb, sim: Similarity)
    requires idx.Valid() && IsHit(Scan(idx, u, sim))
    ensures Scan(idx, u, sim).bestMatch.Some?
    ensures Scan(idx, u, sim).bestMatch.value in idx.faq
  {
    ScanNoMatch(idx.order, idx.emb, u, sim, |idx.order|);
    var j := ScanFirstWins(idx.order, idx.emb, u, sim, |idx.order|);
  }

  /**
   * The two dictionary assignments of chat_bot_ai.py:77-78. Assigning to a
   * key already present keeps its position in the iteration order; a new key
   * goes last.
   */
  function Insert(idx: Index, q: string, answer: string, e: Emb): (r: Index)
  {
    Index(if q in idx.emb then idx.order else idx.order + [q], idx.faq[q := answer], idx.emb[q := e])
  }

  /** The two assignments keep the key sets equal and each key listed once. */
  lemma InsertKeepsValid(idx: Index, q: string, answer: string, e: Emb)
    requires idx.Valid()
    ensures Insert(idx, q, answer, e).Valid()
  {
    var r := Insert(idx, q, answer, e);
    assert r.faq.Keys == idx.faq.Keys + {q} == r.emb.Keys;
  }

  /**
   * The effect of `Insert` on `faq`: the question maps to the new answer,
   * every other key keeps its presence and answer, and the dictionary grows
   * by one entry for a new key and by none for a present one.
   */
  lemma InsertAnswers(idx: Index, q: string, answer: string, e: Emb)
    ensures var r := Insert(idx, q, answer, e);
            && q in r.faq && r.faq[q] == answer
            && (forall k :: k != q ==> (k in r.faq <==> k in idx.faq))
            && (forall k :: k != q && k in idx.faq ==> r.faq[k] == idx.faq[k])
            && |r.faq| == (if q in idx.faq then |idx.faq| else |idx.faq| + 1)
  {
    var r := Insert(idx, q, answer, e);
    if q !in idx.faq {
      assert r.faq.Keys == idx.faq.Keys + {q};
    } else {
      assert r.faq.Keys == idx.faq.Keys;
    }
  }

  /**
   * The effect of `Insert` on `faq_embeddings` and the iteration order: the
   * question maps to its vector, every other key keeps its vector, and only
   * a new key is appended to the order.
   */
  lemma InsertEmbeddings(idx: Index, q: string, answer: string, e: Emb)
    ensures var r := Insert(idx, q, answer, e);
            && q in r.emb && r.emb[q] == e
            && (forall k :: k != q ==> (k in r.emb <==> k in idx.emb))
            && (forall k :: k != q && k in idx.emb ==> r.emb[k] == idx.emb[k])
            && |r.emb| == (if q in idx.emb then |idx.emb| else |idx.emb| + 1)
            && r.order == (if q in idx.emb then idx.order else idx.order + [q])
  {
    var r := Insert(idx, q, answer, e);
    if q !in idx.emb {
      assert r.emb.Keys == idx.emb.Keys + {q};
    } else {
      assert r.emb.Keys == idx.emb.Keys;
    }
  }

  /** What one POST request returns, and the state it leaves behind. */
  datatype Response = Response(answer: string, index: Index)

  /**
   * One question through chat_bot_ai.py:61-78, for a question already
   * stripped and known to be non-blank. `outcome` is what the Gemini call
   * would come to; it is consulted only on a miss.
   */
  function Respond(idx: Index, q: string, embed: string -> Emb, sim: Similarity,
                   apiKey: Option<string>, outcome: CallOutcome): (r: Response)
    requires idx.Valid()
    ensures r.index.Valid()
  {
    var best := Scan(idx, embed(q), sim);
    if IsHit(best) then
      HitHasMatch(idx, embed(q), sim);
      Response(idx.faq[best.bestMatch.value], idx)
    else
      var answer := AskGemini(apiKey, outcome);
      InsertKeepsValid(idx, q, answer, embed(q));
      Response(answer, Insert(idx, q, answer, embed(q)))
  }

  /** A hit returns the stored answer of the best match and changes nothing. */
  lemma RespondHit(idx: Index, q: string, embed: string -> Emb, sim: Similarity,
                   apiKey: Option<string>, outcome: CallOutcome)
    requires idx.Valid() && IsHit(Scan(idx, embed(q), sim))
    ensures Scan(idx, embed(q), sim).bestMatch.Some?
    ensures Scan(idx, embed(q), sim).bestMatch.value in idx.faq
    ensures Respond(idx, q, embed, sim, apiKey, outcome)
            == Response(idx.faq[Scan(idx, embed(q), sim).bestMatch.value], idx)
  {
    HitHasMatch(idx, embed(q), sim);
  }

  /**
   * A miss (best score at most 0.5, so exactly 0.5 too) answers whatever
   * `ask_gemini` returned, the missing-key message and the apology included,
   * and stores it verbatim under the question together with the question's
   * embedding; every other key keeps its answer and vector, and each
   * dictionary grows by at most one entry.
   */
  lemma RespondMiss(idx: Index, q: string, embed: string -> Emb, sim: Similarity,
                    apiKey: Option<string>, outcome: CallOutcome)
    requires idx.Valid() && Scan(idx, embed(q), sim).bestScore <= Threshold
    ensures var r := Respond(idx, q, embed, sim, apiKey, outcome);
            && r.answer == AskGemini(apiKey, outcome)
            && q in r.index.faq && r.index.faq[q] == r.answer
            && q in r.index.emb && r.index.emb[q] == embed(q)
            && (forall k :: k != q ==> (k in r.index.faq <==> k in idx.faq))
            && (forall k :: k != q && k in idx.faq ==> r.index.faq[k] == idx.faq[k] && r.index.emb[k] == idx.emb[k])
            && |idx.faq| <= |r.index.faq| <= |idx.faq| + 1
            && |r.index.emb| == |r.index.faq|
            && r.index.order == (if q in idx.emb then idx.order else idx.order + [q])
  {
    InsertAnswers(idx, q, AskGemini(apiKey, outcome), embed(q));
    InsertEmbeddings(idx, q, AskGemini(apiKey, outcome), embed(q));
  }

  /**
   * An empty cache always misses, whatever the question: the scan leaves
   * `best_score` at -1.
   */
  lemma EmptyIndexMisses(q: string, embed: string -> Emb, sim: Similarity,
                         apiKey: Option<string>, outcome: CallOutcome)
    ensures Scan(Index([], map[], map[]), embed(q), sim) == NoMatch
    ensures Respond(Index([], map[], map[]), q, embed, sim, apiKey, outcome).index
            == Index([q], map[q := AskGemini(apiKey, outcome)], map[q := embed(q)])
  {
  }

  /**
   * A question whose own vector is stored under it, and which is similar
   * enough to itself, is a hit; if similarities are at most 1 and
   * self-similarity is 1, its best score is exactly 1.
   */
  lemma SelfMatchIsHit(idx: Index, q: string, embed: string -> Emb, sim: Similarity)
    requires idx.Valid() && q in idx.emb && idx.emb[q] == embed(q)
    requires sim(embed(q), embed(q)) > Threshold
    ensures IsHit(Scan(idx, embed(q), sim))
    ensures Scan(idx, embed(q), sim).bestScore >= sim(embed(q), embed(q))
    ensures (sim(embed(q), embed(q)) == 1.0 && forall k :: k in idx.emb ==> sim(embed(q), idx.emb[k]) <= 1.0)
            ==> Scan(idx, embed(q), sim).bestScore == 1.0
  {
    var n := |idx.order|;
    ScanBounds(idx.order, idx.emb, embed(q), sim, n);
    var i :| 0 <= i < n && idx.order[i] == q;
    ScanNoMatch(idx.order, idx.emb, embed(q), sim, n);
    var j := ScanFirstWins(idx.order, idx.emb, embed(q), sim, n);
  }

  /**
   * A miss followed by the same question again: the second request is a hit
   * (so the fallback is not called again, whatever it would return) and
   * changes nothing. If no other stored vector is as close to the question
   * as its own, the second answer is the one the miss stored, which after a
   * failed Gemini call is the apology.
   */
  lemma MissThenHit(idx: Index, q: string, embed: string -> Emb, sim: Similarity,
                    apiKey: Option<string>, outcome: CallOutcome,
                    apiKey2: Option<string>, outcome2: CallOutcome)
    requires idx.Valid() && Scan(idx, embed(q), sim).bestScore <= Threshold
    requires sim(embed(q), embed(q)) > Threshold
    ensures var first := Respond(idx, q, embed, sim, apiKey, outcome);
            var second := Respond(first.index, q, embed, sim, apiKey2, outcome2);
            && IsHit(Scan(first.index, embed(q), sim))
            && second.index == first.index
            && ((forall k :: k in idx.emb && k != q ==> sim(embed(q), idx.emb[k]) < sim(embed(q), embed(q)))
                ==> second.answer == first.answer)
            && (HasKey(apiKey) && outcome.Failed? ==> first.index.faq[q] == Apology)
  {
    var first := Respond(idx, q, embed, sim, apiKey, outcome);
    var after := first.index;
    RespondMiss(idx, q, embed, sim, apiKey, outcome);
    SelfMatchIsHit(after, q, embed, sim);
    RespondHit(after, q, embed, sim, apiKey2, outcome2);
    if forall k :: k in idx.emb && k != q ==> sim(embed(q), idx.emb[k]) < sim(embed(q), embed(q)) {
      var n := |after.order|;
      var u := embed(q);
      ScanBounds(after.order, after.emb, u, sim, n);
      var j := ScanFirstWins(after.order, after.emb, u, sim, n);
      var i :| 0 <= i < n && after.order[i] == q;
      var m := after.order[j];
      assert sim(u, after.emb[m]) >= sim(u, u);
      assert m == q;
    }
  }

  /**
   * The dict literal of chat_bot_ai.py:16-21 followed by the comprehension of
   * line 24, built pair by pair: a repeated question keeps its first position
   * and its last answer.
   */
  function Seed(pairs: seq<(string, string)>, embed: string -> Emb): (idx: Index)
    ensures idx.Valid()
    ensures forall k :: k in idx.emb ==> idx.emb[k] == embed(k)
  {
    if pairs == [] then Index([], map[], map[])
    else
      var prev := Seed(pairs[..|pairs| - 1], embed);
      var last := pairs[|pairs| - 1];
      InsertKeepsValid(prev, last.0, last.1, embed(last.0));
      Insert(prev, last.0, last.1, embed(last.0))
  }

  /** The questions of the pairs, in order. */
  function Questions(pairs: seq<(string, string)>): (qs: seq<string>)
  {
    if pairs == [] then [] else Questions(pairs[..|pairs| - 1]) + [pairs[|pairs| - 1].0]
  }

  /** No question occurs in two pairs. */
  ghost predicate DistinctQuestions(pairs: seq<(string, string)>)
  {
    forall i, j :: 0 <= i < j < |pairs| ==> pairs[i].0 != pairs[j].0
  }

  /** With distinct questions, the last question is not among the earlier ones. */
  lemma LastQuestionIsNew(pairs: seq<(string, string)>)
    requires pairs != [] && DistinctQuestions(pairs)
    ensures pairs[|pairs| - 1].0 !in Questions(pairs[..|pairs| - 1])
  {
    var init := pairs[..|pairs| - 1];
    QuestionsMembership(init);
    forall i | 0 <= i < |init|
      ensures Questions(init)[i] != pairs[|pairs| - 1].0
    {
      assert init[i] == pairs[i];
    }
  }

  /**
   * Seeding from pairs with distinct questions keeps them in their literal
   * order, one entry per pair.
   */
  lemma {:induction false} SeedOrder(pairs: seq<(string, string)>, embed: string -> Emb)
    requires DistinctQuestions(pairs)
    ensures Seed(pairs, embed).order == Questions(pairs)
    ensures |Seed(pairs, embed).faq| == |pairs|
  {
    if pairs != [] {
      var init := pairs[..|pairs| - 1];
      var last := pairs[|pairs| - 1];
      var prev := Seed(init, embed);
      assert DistinctQuestions(init);
      SeedOrder(init, embed);
      LastQuestionIsNew(pairs);
      assert last.0 !in prev.faq;
      InsertAnswers(prev, last.0, last.1, embed(last.0));
      InsertEmbeddings(prev, last.0, last.1, embed(last.0));
    }
  }

  /** Seeding from pairs with distinct questions stores each pair's answer. */
  lemma {:induction false} SeedContents(pairs: seq<(string, string)>, embed: string -> Emb)
    requires DistinctQuestions(pairs)
    ensures forall i :: 0 <= i < |pairs| ==>
              pairs[i].0 in Seed(pairs, embed).faq && Seed(pairs, embed).faq[pairs[i].0] == pairs[i].1
  {
    if pairs != [] {
      var init := pairs[..|pairs| - 1];
      var last := pairs[|pairs| - 1];
      var prev := Seed(init, embed);
      assert DistinctQuestions(init);
      SeedContents(init, embed);
      InsertAnswers(prev, last.0, last.1, embed(last.0));
      forall i | 0 <= i < |pairs|
        ensures pairs[i].0 in Seed(pairs, embed).faq && Seed(pairs, embed).faq[pairs[i].0] == pairs[i].1
      {
        if i < |pairs| - 1 {
          assert pairs[i] == init[i];
        }
      }
    }
  }

  /** `Questions` lists exactly the question of each pair, position by position. */
  lemma {:induction false} QuestionsMembership(pairs: seq<(string, string)>)
    ensures |Questions(pairs)| == |pairs|
    ensures forall i :: 0 <= i < |pairs| ==> Questions(pairs)[i] == pairs[i].0
  {
    if pairs != [] {
      QuestionsMembership(pairs[..|pairs| - 1]);
    }
  }

  /** The four built-in question/answer pairs of chat_bot_ai.py:16-21. */
  const FaqSeed: seq<(string, string)> := [
    ("ساعات کاری", "شرکت ما شنبه تا چهارشنبه از ساعت ۸ صبح تا ۵ عصر فعال است."),
    ("آدرس شرکت", "تهران، خیابان ولیعصر، کوچه فلان، پلاک ۱۰"),
    ("محصولات", "ما محصولات A، B و C را ارائه می‌دهیم."),
    ("پشتیبانی", "برای پشتیبانی با شماره ********021 تماس بگیرید.")
  ]

  /**
   * The four seed questions are distinct. (The seed is a parameter equal to
   * `FaqSeed` so that the solver does not unfold the literal elsewhere.)
   */
  lemma FaqSeedDistinct(seed: seq<(string, string)>)
    requires seed == FaqSeed
    ensures |seed| == 4 && DistinctQuestions(seed)
  {
  }

  /**
   * At start-up the cache holds exactly the four seed questions, in their
   * literal order, each with its answer. (The seed is a parameter equal to
   * `FaqSeed` so that the solver does not unfold the literal.)
   */
  lemma InitialCache(seed: seq<(string, string)>, embed: string -> Emb)
    requires seed == FaqSeed
    ensures |Seed(seed, embed).order| == 4
    ensures forall i :: 0 <= i < 4 ==> Seed(seed, embed).order[i] == seed[i].0
    ensures |Seed(seed, embed).faq| == 4 && |Seed(seed, embed).emb| == 4
    ensures forall i :: 0 <= i < 4 ==>
              seed[i].0 in Seed(seed, embed).faq && Seed(seed, embed).faq[seed[i].0] == seed[i].1
  {
    FaqSeedDistinct(seed);
    SeedOrder(seed, embed);
    SeedContents(seed, embed);
    QuestionsMembership(seed);
    var idx := Seed(seed, embed);
    assert |idx.emb| == |idx.emb.Keys| == |idx.faq.Keys| == |idx.faq|;
  }

  /**
   * Seed integrity: a seeded question asked verbatim is a hit whenever its
   * self-similarity exceeds the threshold, and scores exactly 1 when
   * self-similarity is 1 and no similarity exceeds 1. When every other seed
   * question scores strictly below its self-similarity, the scan returns that
   * very question.
   */
  lemma SeedQuestionHits(pairs: seq<(string, string)>, embed: string -> Emb, sim: Similarity, i: nat)
    requires DistinctQuestions(pairs) && i < |pairs|
    requires sim(embed(pairs[i].0), embed(pairs[i].0)) > Threshold
    ensures IsHit(Scan(Seed(pairs, embed), embed(pairs[i].0), sim))
    ensures (sim(embed(pairs[i].0), embed(pairs[i].0)) == 1.0 && forall x, y :: sim(x, y) <= 1.0)
            ==> Scan(Seed(pairs, embed), embed(pairs[i].0), sim).bestScore == 1.0
    ensures (forall k :: 0 <= k < |pairs| && k != i ==>
               sim(embed(pairs[i].0), embed(pairs[k].0)) < sim(embed(pairs[i].0), embed(pairs[i].0)))
            ==> Scan(Seed(pairs, embed), embed(pairs[i].0), sim).bestMatch == Some(pairs[i].0)
  {
    var idx := Seed(pairs, embed);
    var u := embed(pairs[i].0);
    SeedContents(pairs, embed);
    SelfMatchIsHit(idx, pairs[i].0, embed, sim);
    if forall k :: 0 <= k < |pairs| && k != i ==> sim(u, embed(pairs[k].0)) < sim(u, u) {
      SeedOrder(pairs, embed);
      QuestionsMembership(pairs);
      forall k | 0 <= k < |idx.order|
        ensures sim(u, idx.emb[idx.order[k]]) <= sim(u, idx.emb[idx.order[i]])
        ensures k < i ==> sim(u, idx.emb[idx.order[k]]) < sim(u, idx.emb[idx.order[i]])
      {
        assert idx.order[k] == pairs[k].0;
      }
      ScanPicksEarliestMaximum(idx, u, sim, i);
    }
  }
}
