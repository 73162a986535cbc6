/** The request handlers of `server/route.py`, as functions from the parsed
    request (and the loaded table, the vocabulary, the similarity ranking and
    the random generator, all passed in) to what the handler does: answer
    with a status and a payload, or let an exception escape. */
module Route {
  import Model
  import Sampling
  import Seqs

  // ---------------------------------------------------------------------------
  // Requests, responses and failures

  /** A decoded JSON value. */
  datatype Json =
    | Null
    | Bool(b: bool)
    | Number(n: real)
    | Str(s: string)
    | Array(items: seq<Json>)
    | Object(fields: map<string, Json>)

  /** Python's `not v` for a decoded JSON value: exactly `null`, `false`,
      `0`, the empty string, the empty list and the empty object are falsy. */
  predicate Falsy(v: Json): (b: bool)
    ensures b <==> v == Null || v == Bool(false) || v == Number(0.0) || v == Str("")
                   || v == Array([]) || v == Object(map[])
  {
    match v
    case Null => true
    case Bool(b) => !b
    case Number(n) => n == 0.0
    case Str(s) => s == ""
    case Array(items) => items == []
    case Object(fields) => fields == map[]
  }

  /** The body as `request.get_json(force=True)` sees it: it either raises or
      yields a JSON value. */
  datatype Request = Unparseable | Parsed(body: Json)

  /** `req[name]`: only an object that holds `name` has a value for it; any
      other body makes the subscript raise. */
  function Field(body: Json, name: string): (v: Model.Option<Json>)
    ensures v.Some? <==> body.Object? && name in body.fields
    ensures v.Some? ==> v.value == body.fields[name]
  {
    if body.Object? && name in body.fields then Model.Some(body.fields[name]) else Model.None
  }

  /** The exceptions that escape a handler (the web framework turns them
      into its generic error response). */
  datatype Failure =
    | BadSubscript(name: string)  // `req[name]` raised KeyError or TypeError
    | UnhashableCategory          // `cat in dict` raised TypeError for a list or object
    | NoQueryWords                // the ranking was asked for with no seed list (None)
    | RankingFailed               // the ranking raised, e.g. for a seed word it does not know
    | SampleLargerThanPopulation  // `random.sample` raised ValueError
    | NotText                     // the normaliser was given a value that is not a string

  datatype Payload =
    | Message(text: string)
    | EmptyData
    | CategoryList(names: seq<string>)
    | Game(positive: seq<string>, negative: seq<string>)

  datatype Outcome = Respond(status: int, payload: Payload) | Raise(failure: Failure)

  const CannotParseRequest := "không thể phân tích yêu cầu"
  const MissingWord := "Thiếu từ yêu cầu"
  const Correct := "Chính xác"
  const NoSuchWord := "Không có từ này"

  // ---------------------------------------------------------------------------
  // get_categories

  /** `get_categories`: the category names, each once, in table order. */
  function GetCategories(t: Model.Table): (r: Outcome)
    requires Model.Valid(t)
    ensures r.Respond? && r.status == 200 && r.payload.CategoryList?
    ensures Seqs.NoDuplicates(r.payload.names)
    ensures forall k :: k in r.payload.names <==> k in t.seeds
  {
    Respond(200, CategoryList(Model.CategoryNames(t)))
  }

  // ---------------------------------------------------------------------------
  // The candidate pools of the word game

  /** One entry of the similarity ranking: a vocabulary word and its cosine
      similarity to the seed words. */
  datatype Neighbour = Neighbour(word: string, similarity: real)

  /** The similarity query: the whole vocabulary ranked against the seed
      words, or nothing when the query raises. */
  type Ranker = seq<string> -> Model.Option<seq<Neighbour>>

  const PositivePoolSize: nat := 20
  const SampleSize: nat := 5

  /** `all_sims[:20]`: the first 20 entries, or all of them when there are fewer. */
  function PositivePool(ranking: seq<Neighbour>): (pool: seq<Neighbour>)
    ensures |pool| == if |ranking| < PositivePoolSize then |ranking| else PositivePoolSize
    ensures pool == ranking[..|pool|]
  {
    if |ranking| < PositivePoolSize then ranking else ranking[..PositivePoolSize]
  }

  /** `t[1] < 0 and t[1] >= -1`. */
  predicate InNegativeBand(e: Neighbour) {
    -1.0 <= e.similarity < 0.0
  }

  /** `[t for t in all_sims if t[1] < 0 and t[1] >= -1]`: the entries in the
      negative band, in ranking order. */
  function NegativePool(ranking: seq<Neighbour>): (pool: seq<Neighbour>)
    ensures |pool| <= |ranking|
    ensures forall i :: 0 <= i < |pool| ==> InNegativeBand(pool[i])
  {
    if ranking == [] then []
    else
      var last := ranking[|ranking| - 1];
      NegativePool(ranking[..|ranking| - 1]) + (if InNegativeBand(last) then [last] else [])
  }

  /** An entry is in the negative pool exactly when it is in the ranking and
      in the negative band. */
  lemma {:induction false} NegativePoolMembers(ranking: seq<Neighbour>, e: Neighbour)
    ensures e in NegativePool(ranking) <==> e in ranking && InNegativeBand(e)
  {
    if ranking != [] {
      var init := ranking[..|ranking| - 1];
      var last := ranking[|ranking| - 1];
      NegativePoolMembers(init, e);
      assert ranking == init + [last];
    }
  }

  /** The positions of the ranking whose entries are in the negative band,
      in increasing order. */
  ghost function BandPositions(ranking: seq<Neighbour>): (idx: seq<nat>)
    ensures forall i :: 0 <= i < |idx| ==> idx[i] < |ranking|
  {
    if ranking == [] then []
    else
      var n := |ranking| - 1;
      BandPositions(ranking[..n]) + (if InNegativeBand(ranking[n]) then [n] else [])
  }

  predicate Increasing(idx: seq<nat>) {
    forall i, j :: 0 <= i < j < |idx| ==> idx[i] < idx[j]
  }

  /** The band positions are increasing, and they are exactly the positions
      in the band. */
  lemma {:induction false} BandPositionsExact(ranking: seq<Neighbour>)
    ensures Increasing(BandPositions(ranking))
    ensures forall j :: 0 <= j < |ranking| ==>
              (InNegativeBand(ranking[j]) <==> j in BandPositions(ranking))
  {
    if ranking != [] {
      var n := |ranking| - 1;
      var init := ranking[..n];
      BandPositionsExact(init);
      var before := BandPositions(init);
      var after := BandPositions(ranking);
      assert after == before + (if InNegativeBand(ranking[n]) then [n] else []);
      forall j | 0 <= j < |ranking|
        ensures InNegativeBand(ranking[j]) <==> j in after
      {
        if j < n {
          assert init[j] == ranking[j];
          assert j in after <==> j in before;
        }
      }
    }
  }

  /** The negative pool takes the entries at the band positions, in order. */
  lemma {:induction false} NegativePoolAtBandPositions(ranking: seq<Neighbour>)
    ensures |NegativePool(ranking)| == |BandPositions(ranking)|
    ensures forall i :: 0 <= i < |NegativePool(ranking)| ==>
              NegativePool(ranking)[i] == ranking[BandPositions(ranking)[i]]
  {
    if ranking != [] {
      var n := |ranking| - 1;
      var init := ranking[..n];
      NegativePoolAtBandPositions(init);
      var before := BandPositions(init);
      var last := ranking[n];
      var tail := if InNegativeBand(last) then [last] else [];
      var pool := NegativePool(ranking);
      assert pool == NegativePool(init) + tail;
      assert BandPositions(ranking) == before + (if InNegativeBand(last) then [n] else []);
      forall i | 0 <= i < |pool|
        ensures pool[i] == ranking[BandPositions(ranking)[i]]
      {
        if i < |before| {
          assert pool[i] == NegativePool(init)[i] == init[before[i]];
        }
      }
    }
  }

  /** The negative pool is the ranking's negative-band entries in ranking
      order: it picks increasing positions, exactly the positions in the
      band. */
  lemma NegativePoolKeepsOrder(ranking: seq<Neighbour>)
    ensures Increasing(BandPositions(ranking))
    ensures forall j :: 0 <= j < |ranking| ==>
              (InNegativeBand(ranking[j]) <==> j in BandPositions(ranking))
    ensures NegativePool(ranking) == Sampling.Select(ranking, BandPositions(ranking))
  {
    BandPositionsExact(ranking);
    NegativePoolAtBandPositions(ranking);
  }

  /** When the ranking is in descending order and its 20th entry is not
      negative, no entry is in both pools. */
  lemma PoolsDisjointWhenSorted(ranking: seq<Neighbour>)
    requires SortedDescending(ranking)
    requires |ranking| >= PositivePoolSize && ranking[PositivePoolSize - 1].similarity >= 0.0
    ensures forall e :: e in PositivePool(ranking) ==> e !in NegativePool(ranking)
  {
    forall e | e in PositivePool(ranking)
      ensures e !in NegativePool(ranking)
    {
      var i :| 0 <= i < PositivePoolSize && ranking[i] == e;
      NegativePoolMembers(ranking, e);
    }
  }

  predicate SortedDescending(ranking: seq<Neighbour>) {
    forall i, j :: 0 <= i < j < |ranking| ==> ranking[i].similarity >= ranking[j].similarity
  }

  predicate DistinctWords(ranking: seq<Neighbour>) {
    forall i, j :: 0 <= i < j < |ranking| ==> ranking[i].word != ranking[j].word
  }

  /** `[pos[0] for pos in positive]`: the words of the entries, in order. */
  function Words(entries: seq<Neighbour>): (words: seq<string>)
    ensures |words| == |entries|
    ensures forall i :: 0 <= i < |entries| ==> words[i] == entries[i].word
  {
    seq(|entries|, i requires 0 <= i < |entries| => entries[i].word)
  }

  // ---------------------------------------------------------------------------
  // get_word_game

  /** `get_word_game`. The generator `rng` serves both draws: the positive
      sample reads steps 0 to 4 and the negative sample steps 5 to 9. */
  function GetWordGame(t: Model.Table, rank: Ranker, req: Request, rng: nat -> nat): (r: Outcome)
    ensures req.Unparseable? <==> r == Respond(400, EmptyData)
    ensures r.Respond? && req.Parsed? ==>
              && r.status == 200 && r.payload.Game?
              && |r.payload.positive| == SampleSize && |r.payload.negative| == SampleSize
  {
    match req
    case Unparseable => Respond(400, EmptyData)
    case Parsed(body) =>
      match Field(body, "category")
      case None => Raise(BadSubscript("category"))
      case Some(cat) =>
        if cat.Array? || cat.Object? then Raise(UnhashableCategory)
        else
          var seeds := if cat.Str? then Model.GetCategoryPositive(t, cat.s) else Model.None;
          match seeds
          case None => Raise(NoQueryWords)
          case Some(words) =>
            match rank(words)
            case None => Raise(RankingFailed)
            case Some(ranking) => Play(ranking, rng)
  }

  /** The end of `get_word_game`, once the ranking is known: the two draws and
      the answer made of their words. It fails exactly when a pool has fewer
      than 5 entries. */
  function Play(ranking: seq<Neighbour>, rng: nat -> nat): (r: Outcome)
    ensures r.Raise? <==> |ranking| < SampleSize || |NegativePool(ranking)| < SampleSize
    ensures r.Raise? ==> r.failure == SampleLargerThanPopulation
    ensures r.Respond? ==>
              r == Respond(200, Game(Words(Sampling.Draw(PositivePool(ranking), SampleSize, rng, 0)),
                                     Words(Sampling.Draw(NegativePool(ranking), SampleSize, rng, SampleSize))))
  {
    match Sampling.SampleOf(PositivePool(ranking), SampleSize, rng, 0)
    case LargerThanPopulation => Raise(SampleLargerThanPopulation)
    case Chosen(positive) =>
      match Sampling.SampleOf(NegativePool(ranking), SampleSize, rng, SampleSize)
      case LargerThanPopulation => Raise(SampleLargerThanPopulation)
      case Chosen(negative) => Respond(200, Game(Words(positive), Words(negative)))
  }

  /** A request whose body names `cat` as its category. */
  predicate AsksFor(req: Request, cat: string) {
    req.Parsed? && Field(req.body, "category") == Model.Some(Str(cat))
  }

  /** An unknown category is not found by the lookup, and the handler fails
      instead of answering. */
  lemma UnknownCategoryFails(t: Model.Table, rank: Ranker, req: Request, cat: string, rng: nat -> nat)
    requires AsksFor(req, cat) && cat !in t.seeds
    ensures Model.GetCategoryPositive(t, cat) == Model.None
    ensures GetWordGame(t, rank, req, rng) == Raise(NoQueryWords)
  {
  }

  /** For a known category whose ranking the query returns, the answer is
      what the two draws from that ranking make of it. */
  lemma GameAnswer(t: Model.Table, rank: Ranker, req: Request, cat: string,
                   ranking: seq<Neighbour>, rng: nat -> nat)
    requires AsksFor(req, cat) && cat in t.seeds && rank(t.seeds[cat]) == Model.Some(ranking)
    ensures GetWordGame(t, rank, req, rng) == Play(ranking, rng)
  {
    assert Model.GetCategoryPositive(t, cat) == Model.Some(t.seeds[cat]);
    var category := Str(cat);
    assert req == Parsed(req.body) && Field(req.body, "category") == Model.Some(category);
    assert !category.Array? && !category.Object? && category.Str?;
    var query := rank(t.seeds[cat]);
    assert GetWordGame(t, rank, req, rng) ==
      match query
      case None => Raise(RankingFailed)
      case Some(r) => Play(r, rng);
  }

  /** A successful game answers with 5 words drawn from distinct positions
      among the first 20 entries of the ranking and 5 words drawn from
      distinct positions in the negative band. */
  lemma GameDrawsFromPools(ranking: seq<Neighbour>, rng: nat -> nat)
    ensures var r := Play(ranking, rng);
            r.Respond? ==>
              var p := PositivePositions(ranking, rng);
              && Sampling.IsDraw(p, SampleSize, |ranking|)
              && (forall i :: 0 <= i < SampleSize ==>
                    p[i] < PositivePoolSize && r.payload.positive[i] == ranking[p[i]].word)
    ensures var r := Play(ranking, rng);
            r.Respond? ==>
              var q := NegativePositions(ranking, rng);
              && Sampling.IsDraw(q, SampleSize, |ranking|)
              && (forall i :: 0 <= i < SampleSize ==>
                    InNegativeBand(ranking[q[i]]) && r.payload.negative[i] == ranking[q[i]].word)
  {
    if Play(ranking, rng).Respond? {
      PositivePositionsInTopTwenty(ranking, rng);
      NegativePositionsInBand(ranking, rng);
    }
  }

  /** The positive sample takes distinct positions among the first 20 of the
      ranking, and its words are the words there. */
  lemma PositivePositionsInTopTwenty(ranking: seq<Neighbour>, rng: nat -> nat)
    requires |ranking| >= SampleSize
    ensures var p := PositivePositions(ranking, rng);
            && Sampling.IsDraw(p, SampleSize, |ranking|)
            && forall i :: 0 <= i < SampleSize ==>
                 p[i] < PositivePoolSize
                 && Sampling.Draw(PositivePool(ranking), SampleSize, rng, 0)[i].word == ranking[p[i]].word
  {
    var pool := PositivePool(ranking);
    var p := PositivePositions(ranking, rng);
    Sampling.DrawAtPositions(pool, SampleSize, rng, 0);
    var drawn := Sampling.Draw(pool, SampleSize, rng, 0);
    forall i | 0 <= i < SampleSize
      ensures p[i] < PositivePoolSize && drawn[i] == ranking[p[i]]
    {
      assert drawn[i] == pool[p[i]];
    }
  }

  /** The ranking positions of the positive sample. */
  ghost function PositivePositions(ranking: seq<Neighbour>, rng: nat -> nat): (p: seq<nat>)
    requires |ranking| >= SampleSize
  {
    Sampling.Positions(|PositivePool(ranking)|, SampleSize, rng, 0)
  }

  /** The ranking positions of the negative sample: the band positions at the
      positions drawn from the negative pool. */
  ghost function NegativePositions(ranking: seq<Neighbour>, rng: nat -> nat): (q: seq<nat>)
    requires |NegativePool(ranking)| >= SampleSize
  {
    NegativePoolKeepsOrder(ranking);
    var band := BandPositions(ranking);
    Sampling.Select(band, Sampling.Positions(|NegativePool(ranking)|, SampleSize, rng, SampleSize))
  }

  /** The negative sample takes distinct positions of the ranking, all in the
      negative band, and its words are the words there. */
  lemma NegativePositionsInBand(ranking: seq<Neighbour>, rng: nat -> nat)
    requires |NegativePool(ranking)| >= SampleSize
    ensures var q := NegativePositions(ranking, rng);
            && Sampling.IsDraw(q, SampleSize, |ranking|)
            && forall i :: 0 <= i < SampleSize ==>
                 InNegativeBand(ranking[q[i]])
                 && Sampling.Draw(NegativePool(ranking), SampleSize, rng, SampleSize)[i].word
                    == ranking[q[i]].word
  {
    var pool := NegativePool(ranking);
    NegativePoolKeepsOrder(ranking);
    var band := BandPositions(ranking);
    var d := Sampling.Positions(|pool|, SampleSize, rng, SampleSize);
    var q := NegativePositions(ranking, rng);
    Sampling.DrawAtPositions(pool, SampleSize, rng, SampleSize);
    var drawn := Sampling.Draw(pool, SampleSize, rng, SampleSize);
    forall i | 0 <= i < SampleSize
      ensures q[i] == band[d[i]] && q[i] < |ranking|
      ensures InNegativeBand(ranking[q[i]]) && drawn[i] == ranking[q[i]]
    {
      assert ranking[band[d[i]]] == pool[d[i]];
      assert band[d[i]] in band;
    }
    forall a, b | 0 <= a < b < SampleSize
      ensures q[a] != q[b]
    {
      assert d[a] != d[b];
      if d[a] < d[b] {
        assert band[d[a]] < band[d[b]];
      } else {
        assert band[d[b]] < band[d[a]];
      }
    }
  }

  /** When the ranking is in descending order, its words are distinct and its
      20th score is not negative, no word is both a positive and a negative
      word of the game. */
  lemma GameListsDisjoint(t: Model.Table, rank: Ranker, req: Request, cat: string,
                          ranking: seq<Neighbour>, rng: nat -> nat)
    requires AsksFor(req, cat) && cat in t.seeds && rank(t.seeds[cat]) == Model.Some(ranking)
    requires SortedDescending(ranking) && DistinctWords(ranking)
    requires |ranking| >= PositivePoolSize && ranking[PositivePoolSize - 1].similarity >= 0.0
    requires GetWordGame(t, rank, req, rng).Respond?
    ensures var g := GetWordGame(t, rank, req, rng).payload;
            forall i, j :: 0 <= i < SampleSize && 0 <= j < SampleSize ==> g.positive[i] != g.negative[j]
  {
    GameAnswer(t, rank, req, cat, ranking, rng);
    GameDrawsFromPools(ranking, rng);
    var g := Play(ranking, rng).payload;
    var p := PositivePositions(ranking, rng);
    var q := NegativePositions(ranking, rng);
    assert GetWordGame(t, rank, req, rng).payload == g;
    forall i, j | 0 <= i < SampleSize && 0 <= j < SampleSize
      ensures g.positive[i] != g.negative[j]
    {
      var a, b := p[i], q[j];
      if a < PositivePoolSize - 1 {
        assert ranking[a].similarity >= ranking[PositivePoolSize - 1].similarity;
      }
      assert ranking[a].similarity >= 0.0 > ranking[b].similarity;
      assert ranking[a].word != ranking[b].word;
    }
  }

  /** A ranking wholly in the negative band is its own negative pool. */
  lemma {:induction false} AllInBand(ranking: seq<Neighbour>)
    requires forall i :: 0 <= i < |ranking| ==> InNegativeBand(ranking[i])
    ensures NegativePool(ranking) == ranking
  {
    if ranking != [] {
      var n := |ranking| - 1;
      var init := ranking[..n];
      assert forall i :: 0 <= i < |init| ==> init[i] == ranking[i];
      AllInBand(init);
      assert InNegativeBand(ranking[n]);
      assert NegativePool(ranking) == NegativePool(init) + [ranking[n]];
      Seqs.SplitLast(ranking);
    }
  }

  /** A ranking in descending order with distinct words, but only five
      entries, all of them negative. */
  const ShortNegativeRanking: seq<Neighbour> :=
    [Neighbour("a", -0.5), Neighbour("b", -0.5), Neighbour("c", -0.5),
     Neighbour("d", -0.5), Neighbour("e", -0.5)]

  lemma ShortNegativeRankingShape()
    ensures SortedDescending(ShortNegativeRanking) && DistinctWords(ShortNegativeRanking)
    ensures forall i :: 0 <= i < |ShortNegativeRanking| ==> InNegativeBand(ShortNegativeRanking[i])
  {
    var r := ShortNegativeRanking;
    forall i, j | 0 <= i < j < |r|
      ensures r[i].similarity >= r[j].similarity && r[i].word != r[j].word
    {
      assert r[i].word[0] != r[j].word[0];
    }
  }

  /** Without the conditions of GameListsDisjoint the two lists can
      coincide: for a ranking of five negative entries, both pools are the
      whole ranking, and a generator that always yields 0 makes both draws
      take the same entries. */
  lemma ListsMayCoincide(t: Model.Table, rank: Ranker, req: Request, cat: string, rng: nat -> nat)
    requires AsksFor(req, cat) && cat in t.seeds && rank(t.seeds[cat]) == Model.Some(ShortNegativeRanking)
    requires forall s :: rng(s) == 0
    ensures SortedDescending(ShortNegativeRanking) && DistinctWords(ShortNegativeRanking)
    ensures var g := GetWordGame(t, rank, req, rng);
            g.Respond? && g.status == 200 && g.payload.positive == g.payload.negative
  {
    var ranking := ShortNegativeRanking;
    ShortNegativeRankingShape();
    assert PositivePool(ranking) == ranking;
    AllInBand(ranking);
    Sampling.ZeroGeneratorTakesPrefix(ranking, 5, rng, 0);
    Sampling.ZeroGeneratorTakesPrefix(ranking, 5, rng, 5);
    GameAnswer(t, rank, req, cat, ranking, rng);
  }

  // ---------------------------------------------------------------------------
  // is_word

  /** A request whose `text` is the string `s`. */
  predicate TextIs(req: Request, s: string) {
    req.Parsed? && Field(req.body, "text") == Model.Some(Str(s))
  }

  /** `is_word`: an unparseable body, then a missing word, are rejected with
      400 before the vocabulary is consulted; a word is accepted with 200
      exactly when its normal form is in the vocabulary, and refused with
      404 otherwise. */
  function IsWord(lex: Model.Lexicon, req: Request): (r: Outcome)
    ensures req.Unparseable? <==> r == Respond(400, Message(CannotParseRequest))
    ensures r == Respond(400, Message(MissingWord)) <==>
              req.Parsed? && Field(req.body, "text").Some? && Falsy(Field(req.body, "text").value)
    ensures r == Respond(200, Message(Correct)) <==>
              exists s :: TextIs(req, s) && s != "" && lex.normalize(s) in lex.vocabulary
    ensures r == Respond(404, Message(NoSuchWord)) <==>
              exists s :: TextIs(req, s) && s != "" && lex.normalize(s) !in lex.vocabulary
  {
    match req
    case Unparseable => Respond(400, Message(CannotParseRequest))
    case Parsed(body) =>
      match Field(body, "text")
      case None => Raise(BadSubscript("text"))
      case Some(text) =>
        if Falsy(text) then Respond(400, Message(MissingWord))
        else if !text.Str? then Raise(NotText)
        else if Model.IsWordInVocab(lex, text.s) then Respond(200, Message(Correct))
        else Respond(404, Message(NoSuchWord))
  }

  /** A parsed body without a `text` key (or one that is not an object) makes
      `req["text"]` raise: the handler answers no 400 for it. */
  lemma MissingTextRaises(lex: Model.Lexicon, req: Request)
    requires req.Parsed? && Field(req.body, "text").None?
    ensures IsWord(lex, req) == Raise(BadSubscript("text"))
  {
  }

  /** Likewise a parsed body without a `category` key makes `get_word_game`
      raise. */
  lemma MissingCategoryRaises(t: Model.Table, rank: Ranker, req: Request, rng: nat -> nat)
    requires req.Parsed? && Field(req.body, "category").None?
    ensures GetWordGame(t, rank, req, rng) == Raise(BadSubscript("category"))
  {
  }

  /** The missing-word check comes before the vocabulary: its answer does not
      depend on the vocabulary or the normaliser. */
  lemma MissingWordIgnoresVocabulary(lex1: Model.Lexicon, lex2: Model.Lexicon, req: Request)
    requires req.Parsed? && Field(req.body, "text").Some? && Falsy(Field(req.body, "text").value)
    ensures IsWord(lex1, req) == IsWord(lex2, req) == Respond(400, Message(MissingWord))
  {
  }
}
