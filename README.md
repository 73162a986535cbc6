# Word-association game server: verified model of its core

The server answers two questions over a pre-trained word-embedding model:
"is this a real (Vietnamese) word?" and "give me a word-association game for
this category". Its own logic is small:

- the **category table** (`server/model.py`): each line of the category file
  is split on commas, each field is whitespace-stripped, and the field list
  (name included) is stored under its first field in an insertion-ordered
  dictionary; `CATEGORIES` lists the names; `get_category_positive` looks a
  name up; `is_word_in_vocab` tests the normalised word against the
  vocabulary;
- the **word game** (`server/route.py`, `get_word_game`): from the full
  similarity ranking of the category's seed words, the positive pool is the
  first 20 entries and the negative pool the entries with similarity in
  [-1, 0); five entries are sampled without replacement from each, and only
  their words are returned;
- the **request decisions** (`get_word_game`, `is_word`, `get_categories`):
  which status and message each kind of request gets, and which requests
  make the handler raise.

The Dafny project has five modules:

- `PyStr` (`pystr.dfy`): Python's `str.split(sep)` and `str.strip()`, with
  the split/join round trips both ways and the characterisation of strip.
  Strip is defined for any character set, as `str.strip(chars)` is, and
  `str.strip()` is its instance for whitespace.
- `Seqs` (`seqs.dfy`): the no-duplicates predicate, and small facts about
  splitting and joining sequences
  that the other modules use.
- `Model` (`model.dfy`): the line parser, the loading loop (a method over the
  lines, proved equal to a fold `TableOf`), the table queries and the
  vocabulary test.
- `Sampling` (`sampling.dfy`): `random.sample`, driven by a generator
  parameter `rng: nat -> nat`. The set of outcomes is proved to be exactly
  the ordered choices of k distinct positions (`DrawAtPositions` one way,
  `EveryDrawReachable` the other); a population smaller than k fails.
- `Route` (`route.dfy`): the request body as a JSON datatype, the
  handlers as functions to `Respond(status, payload)` or `Raise(failure)`,
  the two pools, and the game lemmas.

External collaborators are parameters: the similarity query is a function
`Ranker` from seed words to an optional ranking (none when the query
raises), the normaliser is a function `string -> string` inside `Lexicon`
with the vocabulary as a `set<string>`, the category file is the sequence of
its lines, and the random generator is `rng`.

Three points where the code does not do what one might expect:

- An unknown category in `get_word_game` does not give a 404. The lookup
  returns `None`, which goes straight into the similarity query, and that
  raises (`UnknownCategoryFails`).
- The positive and negative lists are not disjoint by construction. They are
  disjoint when the ranking is in descending order with distinct words and
  its 20th score is not negative (`GameListsDisjoint`). Otherwise they need
  not be disjoint; for a ranking of five negative entries they can even
  coincide (`ListsMayCoincide`).
- A parsed body without a `text` key does not get the 400 "Thiếu từ yêu
  cầu": `req["text"]` raises before the emptiness test
  (`MissingTextRaises`). The same holds for `category` in `get_word_game`
  (`MissingCategoryRaises`).

## Model

| member | source | states |
|---|---|---|
| `PyStr.Split` | server/model.py:15 | `line.split(",")` always yields at least one piece, and no piece contains the separator |
| `PyStr.SplitCount` | server/model.py:15 | the number of pieces is the number of separators plus one |
| `PyStr.SplitFirstPiece` | server/model.py:15-16 | the first piece of a split is the text before the first separator, or the whole string when there is none |
| `PyStr.JoinSplit` | server/model.py:15 | joining the pieces with the separator gives back the line |
| `PyStr.SplitJoin` | server/model.py:15 | splitting pieces joined by a separator they do not contain gives back those pieces |
| `PyStr.StripStart` | server/model.py:15 | the result is a suffix of the input, everything dropped is a stripped character, and the result does not start with one |
| `PyStr.StripEnd` | server/model.py:15 | the result is a prefix of the input, everything dropped is a stripped character, and the result does not end with one |
| `PyStr.StripChars` | server/model.py:15 | the stripped string is no longer than the input, and neither of its ends is a stripped character |
| `PyStr.Strip` | server/model.py:15 | `w.strip()` is no longer than `w`, and neither of its ends is whitespace |
| `PyStr.StripIsInfix` | server/model.py:15 | the input is the stripped string with only stripped characters before and after it |
| `PyStr.StripUnique` | server/model.py:15 | for any `a` and `b` made of stripped characters and any trimmed `m`, stripping `a + m + b` gives `m` |
| `PyStr.StripIdempotent` | server/model.py:15 | stripping twice is stripping once |
| `PyStr.StripKeepsCharacters` | server/model.py:15 | every character of a stripped field occurs in the unstripped piece |
| `Model.ParseLine` | server/model.py:15 | every line parses to at least one field |
| `Model.ParseLineFields` | server/model.py:15 | a line has one field more than commas; field i is piece i of the comma split, stripped; no field holds a comma or has whitespace at either end |
| `Model.Key` | server/model.py:16 | `l[0]`, the category name of a line, is its first comma piece stripped: it holds no comma and has no whitespace at either end |
| `Model.KeysOfAt` | server/model.py:16 | the i-th key is the first field of line i |
| `Model.Insert` | server/model.py:16 | `d[key] = fields` keeps the dictionary consistent: the value is replaced, a new key is appended to the insertion order, and an existing key keeps its place |
| `Model.TableOf` | server/model.py:13-16 | the table after any sequence of lines lists each key once, and lists exactly its keys |
| `Model.LoadCategories` | server/model.py:12-16 | the loading loop builds exactly `TableOf(lines)` |
| `Model.TableKeys` | server/model.py:14-16 | a name is a key of the loaded table exactly when it is the first field of some line |
| `Model.SeedsStartWithName` | server/model.py:15-16 | every stored seed list is non-empty and starts with its own category name |
| `Model.LastLineWins` | server/model.py:16 | the last line with a given name decides that name's seed list, overwriting earlier lines |
| `Model.FirstIndex` | server/model.py:18 | the first position of a name among the line keys: it holds the name and no earlier position does |
| `Model.OrderOfFirstOccurrence` | server/model.py:16-18 | `CATEGORIES` is ordered by first occurrence in the file, even for a name a later line redefines |
| `Model.CategoryNames` | server/model.py:18 | `CATEGORIES` has no duplicates and holds exactly the table's keys |
| `Model.GetCategoryPositive` | server/model.py:21-25 | the lookup returns nothing exactly for an unknown name, and otherwise the stored list unchanged |
| `Model.LookupInLoadedTable` | server/model.py:21-25 | on the loaded table, the lookup fails exactly for names that start no line, and a found list begins with the name |
| `Model.IsWordInVocab` | server/model.py:27-29 | a word is in the vocabulary exactly when its normal form is |
| `Model.SameNormalFormSameAnswer` | server/model.py:27-29 | only the normal form is looked up: two spellings with the same normal form get the same answer |
| `Sampling.Draw` | server/route.py:21-22 | a draw of k from a pool of at least k returns exactly k items |
| `Sampling.DrawWithoutReplacement` | server/route.py:21-22 | no item is drawn more often than it occurs in the pool |
| `Sampling.SampleOf` | server/route.py:21-22 | `random.sample(pool, k)` fails exactly when the pool has fewer than k items, and otherwise returns k items of the pool, without replacement |
| `Sampling.Positions` | server/route.py:21-22 | the positions a draw takes are k distinct positions of the pool |
| `Sampling.DrawAtPositions` | server/route.py:21-22 | a draw returns the pool's items at those positions, in order |
| `Sampling.EveryDrawReachable` | server/route.py:21-22 | every ordered choice of k distinct positions is taken by a generator yielding its relative positions |
| `Sampling.DrawReachedBy` | server/route.py:21-22 | for every ordered choice of distinct positions there is a generator whose draw returns exactly the items there |
| `Route.Field` | server/route.py:19 | `req[name]` has a value exactly when the body is an object holding `name`, and the value is the one stored there |
| `Route.GetCategories` | server/route.py:8-10 | `get_categories` answers 200 with the category names, each once, exactly the table's keys |
| `Route.PositivePool` | server/route.py:21 | the positive pool is the first min(20, n) entries of the ranking, in ranking order |
| `Route.InNegativeBand` | server/route.py:22 | the comprehension's condition `t[1] < 0 and t[1] >= -1`: the score lies in [-1, 0) |
| `Route.NegativePool` | server/route.py:22 | the negative pool is no longer than the ranking, and every entry in it has a score in [-1, 0) |
| `Route.NegativePoolMembers` | server/route.py:22 | an entry is in the negative pool exactly when it is in the ranking with -1 <= score < 0 |
| `Route.BandPositionsExact` | server/route.py:22 | the band positions are increasing and are exactly the positions whose score is in [-1, 0) |
| `Route.NegativePoolAtBandPositions` | server/route.py:22 | the negative pool holds the entries at the band positions, in that order |
| `Route.NegativePoolKeepsOrder` | server/route.py:22 | the negative pool is the order-preserving filter of the ranking by -1 <= score < 0 |
| `Route.PoolsDisjointWhenSorted` | server/route.py:21-22 | for a descending ranking whose 20th score is not negative, no entry is in both pools |
| `Route.Words` | server/route.py:25-26 | the response keeps only the word of each sampled pair, in sampled order |
| `Route.GetWordGame` | server/route.py:12-27 | an unparseable body, and only that, gives 400 with empty data; a parsed body that gets an answer gets 200 with exactly 5 positive and 5 negative words |
| `Route.UnknownCategoryFails` | server/route.py:19 | for an unknown category the lookup finds nothing and the handler raises instead of answering |
| `Route.Play` | server/route.py:21-27 | with a ranking in hand, the handler raises `SampleLargerThanPopulation` exactly when the ranking or the negative pool has fewer than 5 entries, and otherwise answers 200 with the words of the positive draw (generator steps 0-4) and the negative draw (steps 5-9) |
| `Route.GameAnswer` | server/route.py:12-27 | for a parsed body naming a known category whose seed list the query ranks, the handler's answer is the one `Play` gives for that ranking |
| `Route.PositivePositionsInTopTwenty` | server/route.py:21 | the positive sample takes 5 distinct ranking positions below 20, and its words are the words there |
| `Route.NegativePositionsInBand` | server/route.py:22 | the negative sample takes 5 distinct ranking positions, all with score in [-1, 0), and its words are the words there |
| `Route.GameDrawsFromPools` | server/route.py:21-27 | in a successful game the 5 positive words come from distinct positions among the first 20 entries, and the 5 negative words from distinct positions in the negative band |
| `Route.GameListsDisjoint` | server/route.py:21-27 | for a descending ranking with distinct words and a non-negative 20th score, no word is both positive and negative |
| `Route.ListsMayCoincide` | server/route.py:21-22 | without those conditions the two lists can be identical: five negative entries and an all-zero generator |
| `Route.IsWord` | server/route.py:30-43 | unparseable body gives 400 "không thể phân tích yêu cầu"; falsy `text` gives 400 "Thiếu từ yêu cầu"; non-empty string text gives 200 "Chính xác" exactly when its normal form is in the vocabulary, and 404 "Không có từ này" exactly when it is not |
| `Route.Falsy` | server/route.py:37 | `not req["text"]` holds for exactly six JSON values: `null`, `false`, `0`, `""`, `[]` and `{}` |
| `Route.MissingTextRaises` | server/route.py:37 | a parsed body without a `text` key (or not an object) makes the handler raise instead of answering |
| `Route.MissingCategoryRaises` | server/route.py:19 | a parsed body without a `category` key (or not an object) makes `get_word_game` raise |
| `Route.MissingWordIgnoresVocabulary` | server/route.py:37-38 | the empty-text check comes before the vocabulary: its answer is the same whatever the vocabulary and normaliser |

## Left out

- Sampling.SampleOf: the sample is not shown to be uniform. Only its possible outcomes are modelled, as the ordered choices of distinct positions. How Python's generator turns random bits into a choice is not modelled.
- Route.GetWordGame: the positive draw reads generator steps 0-4 and the negative draw steps 5-9. The actual number of random values Python consumes per draw is not modelled.
- The similarity query (`most_similar` with `topn=sys.maxsize`): a foreign library doing floating-point cosine similarity. Its ranking is an input, and whether it is correct is not verified. Scores are `real`, compared only against 0 and -1. It raises for a `None` or unknown seed list, and these cases are `NoQueryWords` and `RankingFailed`.
- Loading the word vectors (`KeyedVectors.load`) and the vocabulary `INSTANCE.wv.key_to_index.keys()`: foreign library. The vocabulary is a `set<string>` parameter.
- The Vietnamese text normaliser: a foreign library. It is an arbitrary function `string -> string`. That it raises for a truthy `text` that is not a string (`NotText`) is an assumption about the library.
- Reading the category file: I/O. The model takes the lines as the file iterator yields them, terminators included. Newline translation by text mode and file encoding are not modelled.
- The HTTP layer: Flask routing, `request.get_json(force=True)` (modelled as `Unparseable` or a parsed JSON value), `Response` construction and the bytes of the response bodies. Payloads are modelled as a message or data value. JSON numbers are `real`, so NaN and infinities are not modelled.
- The 400 answer of `get_word_game` is modelled as the payload `{"data": {}}` (`EmptyData`) that the code evidently intends. By reading, `Response` is handed a dict, which it iterates as the body, so the bytes sent would be the key `data` rather than that JSON text. This is not modelled.
- What the web framework sends when a handler raises: the model stops at `Raise(failure)`.
- The `/ping` route and server start-up (main.py), and the port configuration (server/server_config.py): configuration plumbing.
- tools/gen_data.py: an offline script that parses float vectors and prints a ranking. It states no contract.
- `PyStr.Whitespace` lists the code points for which Python's `str.isspace()` holds. Unicode normalisation is not modelled.
