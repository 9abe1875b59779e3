# Semantic FAQ cache of the Flask FAQ chatbot

This project models the core of a small Flask question-answering bot
(`chat_bot_ai.py`). It keeps two dictionaries that share their keys:
`faq`, which maps a question to its answer, and `faq_embeddings`, which maps
a question to its sentence-embedding vector. For every submitted question
the bot does four things:

1. It embeds the question.
2. It scans `faq_embeddings` for the most similar stored question. A later
   entry replaces the current best only when its score is strictly greater,
   starting from `best_match = None, best_score = -1`.
3. If the best score is strictly above 0.5 (a hit), it answers with the
   stored answer and changes nothing.
4. Otherwise (a miss), it asks the Gemini endpoint through `ask_gemini`,
   which always yields a string: the extracted text, a missing-key message
   or an apology. It then writes the question, that string and the
   question's embedding back into both dictionaries.

Files:

- `wrappers.dfy`: module `Wrappers`, the `Option` type used for Python's `None`.
- `gemini.dfy`: module `Gemini`, the answer choice of `ask_gemini` and its two fixed messages.
- `index.dfy`: module `SemanticIndex`, the cache as a value (`Index`): the
  scan as a left fold (`ScanUpTo`), the threshold test, the dictionary
  write-back (`Insert`), one request (`Respond`), the seed, and the lemmas
  about them.
- `cache.dfy`: module `ChatBot`, class `FaqCache`. It holds the two
  dictionaries and their iteration order as fields. Its loop `Nearest` is
  proved equal to the scan, and its request method `Ask` is proved equal to
  `Respond`.

The sentence encoder and `util.pytorch_cos_sim` are parameters:
`embed: string -> Emb` and `sim: (Emb, Emb) -> real`. Nothing is assumed
about them except where a lemma states it, for example "self-similarity
exceeds 0.5". The Gemini round trip is a parameter too: `CallOutcome` is
either `Extracted(text)` or `Failed`. The API key read at start-up is an
`Option<string>`. Python dictionaries iterate in insertion order, so the
model keeps that order as a sequence `order`. Assigning to a key that is
already present keeps its position.

Every miss assigns `faq[user_question]` and `faq_embeddings[user_question]`
(chat_bot_ai.py:77-78). So a miss on a question that is already a key
overwrites its answer and vector, and the key keeps its position; `Insert`
models this.

## Model

| member | source | states |
|---|---|---|
| `Gemini.AskGemini` | chat_bot_ai.py:31-50 | Never fails and always returns one of three strings. With no key (unset or empty) it returns the missing-key message, whatever the call would have done. With a key it returns the extracted text on success and the apology on any failure. |
| `Gemini.HasKey` | chat_bot_ai.py:32 | No contract of its own: the negation of `not GEMINI_API_KEY`, false for an unset and for an empty key. `AskGemini` states what follows from it. |
| `SemanticIndex.ScanUpTo` | chat_bot_ai.py:64-68 | No contract of its own. The left fold of the loop starts at `(None, -1)` and replaces the best only on a strictly greater score. `ScanBounds`, `ScanNoMatch`, `ScanFirstWins` and `ScanPicksEarliestMaximum` state its properties. |
| `SemanticIndex.Scan` | chat_bot_ai.py:64-68 | No contract of its own: the fold over every key of `faq_embeddings` in iteration order. `ScanPicksEarliestMaximum`, `HitHasMatch` and `FaqCache.Nearest` state its properties. |
| `SemanticIndex.IsHit` | chat_bot_ai.py:71 | No contract of its own: the strict test `best_score > 0.5`, so exactly 0.5 is a miss. `RespondHit` and `RespondMiss` state what each side does. |
| `SemanticIndex.Insert` | chat_bot_ai.py:77-78 | No contract of its own: the two assignments, with a new key appended to the iteration order and an existing key kept in place. `InsertKeepsValid`, `InsertAnswers` and `InsertEmbeddings` state its properties. |
| `SemanticIndex.ScanBounds` | chat_bot_ai.py:64-68 | After the scan, `best_score >= -1`, and no stored question scores above `best_score`. |
| `SemanticIndex.ScanNoMatch` | chat_bot_ai.py:64-68 | `best_match` stays None exactly when no stored question scores above -1, which includes an empty cache. In that case `best_score` stays -1. |
| `SemanticIndex.ScanFirstWins` | chat_bot_ai.py:65-68 | A found `best_match` is the key at some position `j`, and `best_score` is that key's score, which is above -1. Every key before `j` scores strictly less, so on ties the earliest key wins. |
| `SemanticIndex.ScanPicksEarliestMaximum` | chat_bot_ai.py:65-68 | If key `i` has the maximal score (above -1) and every earlier key scores strictly less, the scan returns exactly key `i` with its score. This holds even when later keys tie with it. |
| `SemanticIndex.HitHasMatch` | chat_bot_ai.py:67-72 | When `best_score > 0.5`, `best_match` is not None and is a key of `faq`, so `faq[best_match]` is defined. |
| `SemanticIndex.InsertKeepsValid` | chat_bot_ai.py:77-78 | After the two assignments, both dictionaries still have equal key sets, and the order lists each key once. |
| `SemanticIndex.InsertAnswers` | chat_bot_ai.py:77 | After `faq[q] = answer`, `q` maps to the answer, and every other key keeps its presence and answer. `faq` grows by one entry for a new key and by none for an existing one. |
| `SemanticIndex.InsertEmbeddings` | chat_bot_ai.py:78 | After `faq_embeddings[q] = vector`, `q` maps to the vector, and every other key keeps its presence and vector. The dictionary grows by at most one entry. Only a new key is appended to the iteration order; an existing key keeps its position. |
| `SemanticIndex.Respond` | chat_bot_ai.py:61-78 | One request, hit or miss, keeps the cache consistent: `faq` and `faq_embeddings` have equal key sets. |
| `SemanticIndex.RespondHit` | chat_bot_ai.py:71-72 | On a hit, the answer is `faq[best_match]` and the state is unchanged, so repeating a hit never grows the cache. |
| `SemanticIndex.RespondMiss` | chat_bot_ai.py:71-78 | On a miss (best score at most 0.5, so exactly 0.5 too), the answer is what `ask_gemini` returned, including the missing-key message or the apology. It is stored verbatim under the question, together with the question's embedding. Every other key is untouched, and each dictionary grows by at most one entry. Only a new question is appended to the iteration order. |
| `SemanticIndex.EmptyIndexMisses` | chat_bot_ai.py:64-78 | On an empty cache the scan leaves `(None, -1)` and the request inserts exactly the question, its answer and its vector. |
| `SemanticIndex.SelfMatchIsHit` | chat_bot_ai.py:64-72 | A question stored with its own embedding, whose self-similarity exceeds 0.5, is a hit and scores at least its self-similarity. If every similarity is at most 1 and self-similarity is 1, it scores exactly 1. |
| `SemanticIndex.MissThenHit` | chat_bot_ai.py:64-78 | After a miss on `q` (with self-similarity above 0.5), asking `q` again is a hit, so Gemini is not called, and the state does not change. If no other stored vector is as close to `q` as its own, the second answer equals the stored first one. After a failed Gemini call with a key, that stored answer is the apology (the poisoning). |
| `SemanticIndex.Seed` | chat_bot_ai.py:16-24 | The cache built from the seed pairs is consistent, and every stored vector is the embedding of its own question. |
| `SemanticIndex.SeedOrder` | chat_bot_ai.py:16-24 | Seeding from pairs with distinct questions keeps them in literal order, with one entry per pair. |
| `SemanticIndex.SeedContents` | chat_bot_ai.py:16-24 | Seeding from pairs with distinct questions maps each question to its own answer. |
| `SemanticIndex.FaqSeedDistinct` | chat_bot_ai.py:16-21 | The four built-in questions are distinct. |
| `SemanticIndex.InitialCache` | chat_bot_ai.py:16-24 | At start-up both dictionaries hold exactly the four built-in questions, in literal order, each with its built-in answer. |
| `SemanticIndex.SeedQuestionHits` | chat_bot_ai.py:16-72 | Seed integrity, for seed pairs with distinct questions: a seed question asked verbatim is a hit when its self-similarity exceeds 0.5. It scores exactly 1 when self-similarity is 1 and no similarity exceeds 1. When every other seed question scores strictly below its self-similarity, the scan returns that very question. |
| `ChatBot.FaqCache.constructor` | chat_bot_ai.py:16-24 | The new object holds the seeded cache, with both key sets equal. |
| `ChatBot.FaqCache.Nearest` | chat_bot_ai.py:64-68 | The loop over `faq_embeddings` computes exactly the scan, so the arg-max, first-wins and no-match lemmas apply to it. |
| `ChatBot.FaqCache.Ask` | chat_bot_ai.py:61-78 | The in-place request returns the answer of `Respond` on the old state and leaves the fields equal to `Respond`'s new state, with equal key sets. |

## Left out

- Flask routing and the HTTP method dispatch (chat_bot_ai.py:53-55, 84). These are presentation glue.
- Stripping the question and redirecting on blank input (chat_bot_ai.py:56-58). `Ask` and `Respond` take the question after stripping; Python's Unicode whitespace stripping is not modelled.
- The flash/session echo of question and answer, the GET branch and the HTML template (chat_bot_ai.py:80-94, 101-154). These are presentation only.
- Opening the browser and starting the server (chat_bot_ai.py:96-98, 156-159). This is process glue.
- The SentenceTransformer encoder and `util.pytorch_cos_sim` (chat_bot_ai.py:13, 24, 61, 66). They are foreign calls doing floating-point vector maths, so they are the uninterpreted parameters `embed` and `sim`. Real numbers stand in for floats, so NaN and rounding are not modelled. The encoder is taken never to raise: if `model.encode` raised at line 78 after line 77 had run, `faq` would keep a key that `faq_embeddings` lacks, and the equal-key-sets invariant rests on that (line 61 has already encoded the same string).
- Reading `GEMINI_API_KEY` from the environment, building the URL, the HTTP POST with its 20-second timeout, status check and JSON parsing, and the error print (chat_bot_ai.py:27-29, 35-46, 49). These are I/O; they are the parameters `apiKey` and `outcome`.
- Gemini.AskGemini: treats the extracted reply field as text. Python would return a non-string JSON value at that path unchanged.
- Concurrency between request threads. The code takes no lock, so the model handles one request at a time.
- Persistence. There is none: the cache is rebuilt from the seed at every start.
