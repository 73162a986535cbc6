/** The category table and the vocabulary test of `server/model.py`.

    The category file is given as the sequence of lines Python's file iterator
    yields (each with its line terminator, if any); reading the file is not
    part of this model. The vocabulary and the text normaliser are parameters:
    the word-vector file and the normalising library are not part of this
    model. */
module Model {
  import PyStr
  import Seqs

  datatype Option<T> = None | Some(value: T)

  // ---------------------------------------------------------------------------
  // Parsing one line of the category file

  /** `[w.strip() for w in line.split(",")]`. */
  function ParseLine(line: string): (fields: seq<string>)
    ensures |fields| >= 1
  {
    var parts := PyStr.Split(line, ',');
    seq(|parts|, i requires 0 <= i < |parts| => PyStr.Strip(parts[i]))
  }

  /** A line has one field more than it has commas, and each field is the
      corresponding comma-separated piece of the line with its surrounding
      whitespace removed; so it holds no comma and neither starts nor ends
      with whitespace. */
  lemma ParseLineFields(line: string, i: nat)
    requires i < |ParseLine(line)|
    ensures |ParseLine(line)| == multiset(line)[','] + 1
    ensures ParseLine(line)[i] == PyStr.Strip(PyStr.Split(line, ',')[i])
    ensures ',' !in ParseLine(line)[i] && PyStr.Trimmed(ParseLine(line)[i], PyStr.Whitespace)
  {
    var parts := PyStr.Split(line, ',');
    PyStr.SplitCount(line, ',');
    if ',' in ParseLine(line)[i] {
      PyStr.StripKeepsCharacters(parts[i], PyStr.Whitespace, ',');
    }
  }

  /** The category name a line defines: its first field, which is the text
      before the line's first comma with surrounding whitespace removed. */
  function Key(line: string): (name: string)
    ensures name == PyStr.Strip(PyStr.Split(line, ',')[0])
    ensures ',' !in name && PyStr.Trimmed(name, PyStr.Whitespace)
  {
    ParseLineFields(line, 0);
    ParseLine(line)[0]
  }

  /** The category names of the lines, line by line, repetitions included. */
  function KeysOf(lines: seq<string>): (keys: seq<string>)
    ensures |keys| == |lines|
  {
    if lines == [] then [] else KeysOf(lines[..|lines| - 1]) + [Key(lines[|lines| - 1])]
  }

  lemma {:induction false} KeysOfAt(lines: seq<string>, i: nat)
    requires i < |lines|
    ensures KeysOf(lines)[i] == Key(lines[i])
  {
    if i < |lines| - 1 {
      KeysOfAt(lines[..|lines| - 1], i);
    }
  }

  // ---------------------------------------------------------------------------
  // The table: an insertion-ordered dictionary from name to seed words

  /** A Python dict from category name to seed list: `seeds` holds the
      entries, `order` the keys in insertion order. */
  datatype Table = Table(seeds: map<string, seq<string>>, order: seq<string>)

  /** Every key is listed exactly once in `order`, and `order` lists nothing else. */
  ghost predicate Valid(t: Table) {
    && Seqs.NoDuplicates(t.order)
    && (forall k :: k in t.order <==> k in t.seeds)
  }

  const Empty: Table := Table(map[], [])

  /** `d[key] = fields`: a new key goes to the end of the insertion order;
      an existing key keeps its position and gets the new value. */
  function Insert(t: Table, key: string, fields: seq<string>): (r: Table)
    requires Valid(t)
    ensures Valid(r)
    ensures r.seeds == t.seeds[key := fields]
    ensures key in t.seeds ==> r.order == t.order
    ensures key !in t.seeds ==> r.order == t.order + [key]
  {
    if key in t.seeds then Table(t.seeds[key := fields], t.order)
    else Table(t.seeds[key := fields], t.order + [key])
  }

  /** The table after the loading loop has consumed `lines`, one line at a time. */
  function TableOf(lines: seq<string>): (t: Table)
    ensures Valid(t)
  {
    if lines == [] then Empty
    else
      var fields := ParseLine(lines[|lines| - 1]);
      Insert(TableOf(lines[..|lines| - 1]), fields[0], fields)
  }

  /** The loading loop: every line is parsed and stored under its first field. */
  method LoadCategories(lines: seq<string>) returns (t: Table)
    ensures t == TableOf(lines)
  {
    t := Empty;
    for i := 0 to |lines|
      invariant t == TableOf(lines[..i])
    {
      var fields := ParseLine(lines[i]);
      assert lines[..i + 1][..i] == lines[..i] && lines[..i + 1][i] == lines[i];
      t := Insert(t, fields[0], fields);
    }
    assert lines[..|lines|] == lines;
  }

  // ---------------------------------------------------------------------------
  // Properties of the loaded table

  /** The table's names are exactly the first fields of the lines. */
  lemma {:induction false} TableKeys(lines: seq<string>, k: string)
    ensures k in TableOf(lines).seeds <==> k in KeysOf(lines)
  {
    if lines != [] {
      var init := lines[..|lines| - 1];
      TableKeys(init, k);
    }
  }

  /** Every stored seed list starts with its own category name. */
  lemma {:induction false} SeedsStartWithName(lines: seq<string>, k: string)
    requires k in TableOf(lines).seeds
    ensures |TableOf(lines).seeds[k]| >= 1 && TableOf(lines).seeds[k][0] == k
  {
    var init := lines[..|lines| - 1];
    if k != Key(lines[|lines| - 1]) {
      SeedsStartWithName(init, k);
    }
  }

  /** The last line with a given name decides its seed list: a later line
      with the same name overwrites an earlier one. */
  lemma {:induction false} LastLineWins(lines: seq<string>, i: nat)
    requires i < |lines|
    requires forall j :: i < j < |lines| ==> Key(lines[j]) != Key(lines[i])
    ensures Key(lines[i]) in TableOf(lines).seeds
    ensures TableOf(lines).seeds[Key(lines[i])] == ParseLine(lines[i])
  {
    if i < |lines| - 1 {
      var init := lines[..|lines| - 1];
      LastLineWins(init, i);
    }
  }

  /** The position of the first occurrence of `x` in `s`. */
  function FirstIndex(s: seq<string>, x: string): (i: nat)
    requires x in s
    ensures i < |s| && s[i] == x && x !in s[..i]
  {
    if s[0] == x then 0 else 1 + FirstIndex(s[1..], x)
  }

  lemma {:induction false} FirstIndexOfPrefix(s: seq<string>, t: seq<string>, x: string)
    requires x in s
    ensures FirstIndex(s + t, x) == FirstIndex(s, x)
  {
    if s[0] != x {
      assert (s + t)[1..] == s[1..] + t;
      FirstIndexOfPrefix(s[1..], t, x);
    }
  }

  lemma FirstIndexOfAppended(s: seq<string>, x: string)
    requires x !in s
    ensures FirstIndex(s + [x], x) == |s|
  {
  }

  /** The category list is in order of first occurrence in the file: a name
      that a later line redefines keeps the position of its first line. */
  lemma {:induction false} OrderOfFirstOccurrence(lines: seq<string>, a: nat, b: nat)
    requires a < b < |TableOf(lines).order|
    ensures TableOf(lines).order[a] in KeysOf(lines) && TableOf(lines).order[b] in KeysOf(lines)
    ensures FirstIndex(KeysOf(lines), TableOf(lines).order[a])
          < FirstIndex(KeysOf(lines), TableOf(lines).order[b])
  {
    var n := |lines|;
    var init := lines[..n - 1];
    var keys, earlier := KeysOf(lines), KeysOf(init);
    var last := Key(lines[n - 1]);
    assert keys == earlier + [last];
    var before, after := TableOf(init), TableOf(lines);
    var x, y := after.order[a], after.order[b];
    if b < |before.order| {
      assert x == before.order[a] && y == before.order[b];
      OrderOfFirstOccurrence(init, a, b);
      FirstIndexOfPrefix(earlier, [last], x);
      FirstIndexOfPrefix(earlier, [last], y);
    } else {
      // y is the name the last line added, so it first occurs on that line
      assert last !in before.seeds && after.order == before.order + [last];
      assert b == |before.order|;
      assert y == last;
      assert x == before.order[a];
      assert x in before.seeds;
      TableKeys(init, x);
      TableKeys(init, y);
      assert x in earlier && y !in earlier;
      FirstIndexOfPrefix(earlier, [last], x);
      FirstIndexOfAppended(earlier, last);
      assert FirstIndex(earlier, x) < |earlier| == n - 1;
    }
  }

  // ---------------------------------------------------------------------------
  // Queries

  /** `CATEGORIES`: the names in insertion order. */
  function CategoryNames(t: Table): (names: seq<string>)
    requires Valid(t)
    ensures Seqs.NoDuplicates(names)
    ensures forall k :: k in names <==> k in t.seeds
  {
    t.order
  }

  /** `get_category_positive`: nothing for an unknown name, otherwise the
      stored seed list unchanged. */
  function GetCategoryPositive(t: Table, cat: string): (r: Option<seq<string>>)
    ensures r == None <==> cat !in t.seeds
    ensures r.Some? ==> r.value == t.seeds[cat]
  {
    if cat !in t.seeds then None else Some(t.seeds[cat])
  }

  /** Looking a name up in the loaded table: it is found exactly when some
      line starts with it, and then its seed list begins with the name. */
  lemma LookupInLoadedTable(lines: seq<string>, cat: string)
    ensures GetCategoryPositive(TableOf(lines), cat) == None <==> cat !in KeysOf(lines)
    ensures GetCategoryPositive(TableOf(lines), cat).Some? ==>
              |GetCategoryPositive(TableOf(lines), cat).value| >= 1
              && GetCategoryPositive(TableOf(lines), cat).value[0] == cat
  {
    TableKeys(lines, cat);
    if cat in TableOf(lines).seeds {
      SeedsStartWithName(lines, cat);
    }
  }

  // ---------------------------------------------------------------------------
  // The vocabulary

  /** The loaded word vectors' vocabulary, and the text normaliser applied
      before looking a word up. */
  datatype Lexicon = Lexicon(vocabulary: set<string>, normalize: string -> string)

  /** `is_word_in_vocab`: only the normalised form of the word is looked up. */
  function IsWordInVocab(lex: Lexicon, word: string): (found: bool)
    ensures found <==> lex.normalize(word) in lex.vocabulary
  {
    lex.normalize(word) in lex.vocabulary
  }

  /** Two spellings with the same normal form get the same answer. */
  lemma SameNormalFormSameAnswer(lex: Lexicon, w1: string, w2: string)
    requires lex.normalize(w1) == lex.normalize(w2)
    ensures IsWordInVocab(lex, w1) == IsWordInVocab(lex, w2)
  {
  }
}
