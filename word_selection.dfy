/** Word selection from a per-language catalog: `get_n_random_words` and
    `get_n_random_words_by_difficulty_level`. The catalog file is read by
    the caller; the random draw of `random.sample` is an input. */
module WordSelection {
  import opened Wrappers

  /** One catalog entry: its `word` and its optional `word_difficulty`. */
  datatype Entry = Entry(word: Option<string>, wordDifficulty: Option<string>)

  /** The loaded word list: opaque key to entry. */
  type Catalog = map<string, Entry>

  datatype Error =
    /** `random.sample` raises ValueError: the sample is negative or larger than the population. */
    | SampleLargerThanPopulation
    /** The entry stored under `key` has no `word`, so reading that field raises KeyError;
        the key records which entry it was. */
    | MissingWordField(key: string)

  predicate Distinct(s: seq<string>) {
    forall i, j :: 0 <= i < j < |s| ==> s[i] != s[j]
  }

  /** `random.sample` accepts the request: 0 <= n <= population size. */
  predicate SampleSizeOk(population: set<string>, n: int) {
    0 <= n <= |population|
  }

  /** What `random.sample(population, n)` may return: n distinct members, in draw order. */
  predicate IsDraw(population: set<string>, n: int, draw: seq<string>) {
    && |draw| == n
    && (forall i :: 0 <= i < |draw| ==> draw[i] in population)
    && Distinct(draw)
  }

  /** The drawn entries, each with its key, in draw order. */
  function Pick(catalog: Catalog, draw: seq<string>): (r: seq<(string, Entry)>)
    requires forall i :: 0 <= i < |draw| ==> draw[i] in catalog
    ensures |r| == |draw|
    ensures forall i :: 0 <= i < |r| ==> r[i].0 == draw[i] && r[i].1 == catalog[draw[i]]
  {
    if draw == [] then [] else [(draw[0], catalog[draw[0]])] + Pick(catalog, draw[1..])
  }

  /** The `word` of each picked entry, in order; fails at the first entry without one. */
  function WordsOf(picked: seq<(string, Entry)>): (r: Result<seq<string>, Error>)
    ensures r.Ok? <==> forall i :: 0 <= i < |picked| ==> picked[i].1.word.Some?
    ensures r.Ok? ==> |r.value| == |picked|
    ensures r.Ok? ==> forall i :: 0 <= i < |picked| ==> r.value[i] == picked[i].1.word.value
    ensures r.Err? ==> exists i :: 0 <= i < |picked| && FirstWithoutWord(picked, i)
                                   && r.error == MissingWordField(picked[i].0)
  {
    if picked == [] then Ok([])
    else match picked[0].1.word
      case None => Err(MissingWordField(picked[0].0))
      case Some(w) =>
        var rest := WordsOf(picked[1..]);
        if rest.Err? then
          assert exists i :: 0 <= i < |picked| - 1 && FirstWithoutWord(picked[1..], i);
          var i :| 0 <= i < |picked| - 1 && FirstWithoutWord(picked[1..], i)
                   && rest.error == MissingWordField(picked[1..][i].0);
          assert FirstWithoutWord(picked, i + 1);
          rest
        else
          Ok([w] + rest.value)
  }

  /** Position i holds the first entry of `picked` that lacks a `word`. */
  predicate FirstWithoutWord(picked: seq<(string, Entry)>, i: nat)
    requires i < |picked|
  {
    picked[i].1.word.None? && forall k :: 0 <= k < i ==> picked[k].1.word.Some?
  }

  /** `get_n_random_words(language, n)` after the catalog of `language` is loaded. */
  function GetNRandomWords(catalog: Catalog, n: int, draw: seq<string>): (r: Result<seq<string>, Error>)
    requires SampleSizeOk(catalog.Keys, n) ==> IsDraw(catalog.Keys, n, draw)
    ensures !SampleSizeOk(catalog.Keys, n) <==> r == Err(SampleLargerThanPopulation)
    ensures r.Ok? ==> SampleSizeOk(catalog.Keys, n) && |r.value| == n
    ensures r.Ok? ==> forall i :: 0 <= i < n ==> catalog[draw[i]].word == Some(r.value[i])
    ensures SampleSizeOk(catalog.Keys, n) ==>
              (r.Ok? <==> forall i :: 0 <= i < n ==> catalog[draw[i]].word.Some?)
  {
    if !SampleSizeOk(catalog.Keys, n) then Err(SampleLargerThanPopulation)
    else WordsOf(Pick(catalog, draw))
  }

  /** The comprehension keeping the entries whose `word_difficulty` equals `level`. */
  function FilterByDifficulty(catalog: Catalog, level: string): (r: Catalog)
    ensures forall k :: k in r <==> k in catalog && catalog[k].wordDifficulty == Some(level)
    ensures forall k :: k in r ==> r[k] == catalog[k]
  {
    map k | k in catalog && catalog[k].wordDifficulty == Some(level) :: catalog[k]
  }

  /** `get_n_random_words_by_difficulty_level(language, level, n)` after loading;
      `draw` is the sample from the filtered keys. */
  function GetNRandomWordsByDifficultyLevel(catalog: Catalog, level: string, n: int, draw: seq<string>)
    : (r: Result<seq<string>, Error>)
    requires SampleSizeOk(FilterByDifficulty(catalog, level).Keys, n) ==>
               IsDraw(FilterByDifficulty(catalog, level).Keys, n, draw)
    ensures !SampleSizeOk(FilterByDifficulty(catalog, level).Keys, n) <==> r == Err(SampleLargerThanPopulation)
    ensures r.Ok? ==> |r.value| == n && Distinct(draw)
    ensures r.Ok? ==> forall i :: 0 <= i < n ==>
              && draw[i] in catalog
              && catalog[draw[i]].wordDifficulty == Some(level)
              && catalog[draw[i]].word == Some(r.value[i])
  {
    GetNRandomWords(FilterByDifficulty(catalog, level), n, draw)
  }

  /** The filter keeps only what was asked for and leaves every kept entry as it was:
      applying it again changes nothing, and it never grows the catalog. */
  lemma FilterIdempotent(catalog: Catalog, level: string)
    ensures FilterByDifficulty(FilterByDifficulty(catalog, level), level) == FilterByDifficulty(catalog, level)
    ensures |FilterByDifficulty(catalog, level)| <= |catalog|
  {
    var f := FilterByDifficulty(catalog, level);
    assert f.Keys <= catalog.Keys;
    SubsetCard(f.Keys, catalog.Keys);
  }

  lemma SubsetCard(a: set<string>, b: set<string>)
    requires a <= b
    ensures |a| <= |b|
  {
    assert b == a + (b - a);
  }

  /** Filters for two different levels select disjoint keys: no entry has two difficulties. */
  lemma FilterLevelsDisjoint(catalog: Catalog, level1: string, level2: string)
    requires level1 != level2
    ensures FilterByDifficulty(catalog, level1).Keys !! FilterByDifficulty(catalog, level2).Keys
  {
  }

  /** The match is exact: "Beginner" does not select an entry marked "beginner",
      and an entry without `word_difficulty` is never selected. */
  lemma FilterIsCaseSensitive()
    ensures FilterByDifficulty(map["k" := Entry(Some("casa"), Some("beginner"))], "Beginner") == map[]
    ensures FilterByDifficulty(map["k" := Entry(Some("casa"), None)], "beginner") == map[]
  {
  }

  /** With no entry of the requested level, any positive request fails; it is not clamped. */
  lemma EmptyLevelFails(catalog: Catalog, level: string, n: int, draw: seq<string>)
    requires FilterByDifficulty(catalog, level) == map[]
    requires n > 0
    ensures GetNRandomWordsByDifficultyLevel(catalog, level, n, draw) == Err(SampleLargerThanPopulation)
  {
    assert FilterByDifficulty(catalog, level).Keys == {};
  }

  /** The draw is of keys, not of words: two keys holding the same word can both be drawn. */
  lemma DistinctKeysMayRepeatWords()
    ensures GetNRandomWords(map["a" := Entry(Some("casa"), None), "b" := Entry(Some("casa"), None)], 2, ["a", "b"])
            == Ok(["casa", "casa"])
  {
    var c := map["a" := Entry(Some("casa"), None), "b" := Entry(Some("casa"), None)];
    assert c.Keys == {"a", "b"};
    assert |c.Keys| == 2;
    var picked := Pick(c, ["a", "b"]);
    assert picked == [("a", c["a"]), ("b", c["b"])];
    assert WordsOf(picked).value == ["casa", "casa"];
  }
}
