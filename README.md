# Language-learning agent: word selection and translation reconciliation

This project models, in Dafny, the tools a language-learning agent calls, as
defined in `agent/tools.py`:

- **Word selection.** `get_n_random_words` draws `n` distinct keys from a
  per-language word catalog and returns the `word` of each entry, in draw
  order. `get_n_random_words_by_difficulty_level` first keeps only the entries
  whose `word_difficulty` equals the requested level, then draws the same way.
  The catalog is a `map<string, Entry>`. The draw is an input: a sequence of
  distinct keys of the (filtered) catalog. That makes both tools
  deterministic functions.
- **Translation reconciliation** (`translate_word`). The language model's reply
  text is an input. The model first tries a strict JSON parse. If that fails,
  it parses the substring `re.search(r"\{.*\}", text, re.DOTALL)` finds: the
  first `{` through the last `}`. If there is no such substring, it uses `{}`.
  From the "translations" list it builds a lookup from `source` to `target`.
  Non-dict items are skipped, a missing field reads as `""`, and a repeated
  source keeps its last target. It then emits one `{source, target}` pair per
  input word, in input order. The target is the exact hit, else the hit on the
  word's capitalised form, else the word itself. The JSON parser is a
  parameter of type `string -> Option<JValue>`, so every lemma holds for any
  parser. The central invariant is that the output has the input's length and
  order, whatever the reply.

Modules: `Wrappers` (Option, Result), `Json` (decoded JSON values),
`WordSelection`, `Translation`.

The code as written behaves as follows, and so does the model:

- `random.sample` raises when `n` is negative or larger than the
  population, and `n` is passed to it unchanged. The model returns
  `SampleLargerThanPopulation` in that case.
- With no entry of the requested level, a request for `n > 0` words fails
  with that same error, and a request for 0 words returns `[]`.
- The difficulty match is exact and case-sensitive. Entries without
  `word_difficulty` are dropped.
- Keys are distinct, but words need not be. Two keys holding the same word
  can both be drawn (`DistinctKeysMayRepeatWords`).
- Only the strict parse is guarded. If the extracted span fails to parse,
  the error propagates. So do a reply that is not an object, a
  "translations" value that is `null`, a bool or a number, and an item whose
  source is a list or dict.
- A word with no translation in the reply gets the word itself as its
  target.

Two facts about the surrounding code:

- `translate_word` ends without a `return`, so the model's result is
  `ordered_translations`.
- `main.py:17` imports a name, `translate_words`, that `agent/tools.py`
  does not define.

## Model

| member | source | states |
|---|---|---|
| `Json.Get` | agent/tools.py:103 | `dict.get(key, default)`: the stored value when the key is present, else the default |
| `WordSelection.Pick` | agent/tools.py:32 | the drawn entries come out one per drawn key, in draw order, each paired with its key |
| `WordSelection.WordsOf` | agent/tools.py:33 | succeeds iff every drawn entry has a `word`, and then returns those words in order; otherwise fails with the key of the first entry that lacks one; Python raises `KeyError('word')`, and `MissingWordField(key)` adds which entry failed |
| `WordSelection.GetNRandomWords` | agent/tools.py:32-33 | fails with SampleLargerThanPopulation iff `n < 0` or `n` exceeds the catalog size (no clamping); on success returns exactly `n` words, the i-th being the `word` of the i-th drawn (distinct) key; given a valid size it succeeds iff every drawn entry has a `word` |
| `WordSelection.FilterByDifficulty` | agent/tools.py:63 | a key is kept iff it is in the catalog and its `word_difficulty` is present and equal to the level; kept entries are unchanged |
| `WordSelection.GetNRandomWordsByDifficultyLevel` | agent/tools.py:63-67 | fails with SampleLargerThanPopulation iff `n` is negative or exceeds the filtered count; on success returns `n` words, each the `word` of a distinct catalog entry whose difficulty is the requested level |
| `WordSelection.FilterIdempotent` | agent/tools.py:63 | filtering twice equals filtering once, and the filtered catalog is no larger than the catalog |
| `WordSelection.FilterLevelsDisjoint` | agent/tools.py:63 | filters for two different levels select disjoint key sets |
| `WordSelection.FilterIsCaseSensitive` | agent/tools.py:63 | "Beginner" does not select an entry marked "beginner"; an entry without `word_difficulty` is never selected |
| `WordSelection.EmptyLevelFails` | agent/tools.py:65-66 | when no entry has the level, every request with `n > 0` fails |
| `WordSelection.DistinctKeysMayRepeatWords` | agent/tools.py:32-33 | two distinct keys holding the same word yield that word twice |
| `Translation.FirstIndexOf` | agent/tools.py:100 | returns the first position of the character, or None iff it does not occur |
| `Translation.LastIndexOf` | agent/tools.py:100 | returns the last position of the character, or None iff it does not occur |
| `Translation.ExtractObject` | agent/tools.py:100-101 | a found span is `text[i..j+1]` for some `{` at i before some `}` at j, so it starts with `{`, ends with `}` and has length at least 2 |
| `Translation.ExtractIsLeftmostLongest` | agent/tools.py:100 | a span is found iff some `{` precedes some `}`; the span found is a match that contains every other match (leftmost start, greedy end) |
| `Translation.ParseReply` | agent/tools.py:97-101 | a successful strict parse wins; otherwise the extracted span is parsed; with no span the result is `{}`; it fails (InvalidJson) iff the strict parse fails, a span exists and the span does not parse |
| `Translation.Iterate` | agent/tools.py:103-105 | iterating fails iff the value is null, a bool or a number; a list yields its items; a str or dict yields no dict items |
| `Translation.TranslationsList` | agent/tools.py:103 | a non-object reply fails (NotAnObject); a missing "translations" key gives the empty list; otherwise it is the iteration of that value |
| `Translation.ModelMap` | agent/tools.py:105 | building the lookup can only fail with UnhashableSource (a list or dict source raises TypeError); its keys and values are stated by `ModelMapFails` and `ModelMapContents` |
| `Translation.ModelMapFails` | agent/tools.py:105 | building the lookup fails, with UnhashableSource, iff some dict item's source is a list or dict |
| `Translation.ModelMapContents` | agent/tools.py:103-105 | the lookup's keys are exactly the string sources of dict items (missing source read as `""`); each key maps to the target of the last item with that source (missing target read as `""`) |
| `Translation.NoDictItemsEmptyLookup` | agent/tools.py:105 | a list holding no dict gives the empty lookup |
| `Translation.UpperAscii` | agent/tools.py:109 | maps `a`-`z` to `A`-`Z` and leaves every other character alone |
| `Translation.LowerAscii` | agent/tools.py:109 | maps `A`-`Z` to `a`-`z` and leaves every other character alone |
| `Translation.LowerAll` | agent/tools.py:109 | keeps the length and lower-cases each character |
| `Translation.Capitalize` | agent/tools.py:109 | keeps the length; the first character is upper-cased and every later one lower-cased |
| `Translation.CapitalizeIdempotent` | agent/tools.py:109 | capitalising a capitalised word changes nothing |
| `Translation.Resolve` | agent/tools.py:109 | an exact key wins (even with an empty target), then the capitalised form, else the word itself; the result is the word or one of the lookup's targets |
| `Translation.OrderedTranslations` | agent/tools.py:108-111 | one pair per input word, same length and order, the i-th source is the i-th word and its target is that word's resolution |
| `Translation.Translate` | agent/tools.py:96-111 | for any reply text and any parser, a successful result has the input's length and the i-th source equals the i-th input word |
| `Translation.Identity` | agent/tools.py:107-111 | the identity mapping: one pair per word, with the word as its own target |
| `Translation.EmptyLookupIsIdentity` | agent/tools.py:107-111 | with an empty lookup the output is the identity mapping |
| `Translation.FullFallbackIsIdentity` | agent/tools.py:97-111 | when nothing parses and the reply has no brace span, the result is the identity mapping; reading its targets back gives the input words |
| `Translation.NoUsableItemsIsIdentity` | agent/tools.py:103-111 | a parsed reply whose translations hold no dict item gives the identity mapping |
| `Translation.ReplyTranslationUsed` | agent/tools.py:105-109 | if the reply's last item for a word has target t, the word's pair has target t |
| `Translation.CapitalizedFallbackUsed` | agent/tools.py:109 | if no item matches the word exactly, the last item for its capitalised form supplies the target; if neither matches, the word is its own target |
| `Translation.TranslateFailsOnlyOn` | agent/tools.py:97-105 | the call raises iff parsing, reading "translations" or building the lookup raises; an unparsable extracted span gives InvalidJson, and a reply that parses to a non-object gives NotAnObject |

## Left out

- File loading: the catalog path `data/<language>/word-list-cleaned.json`, `open` and `json.load` (agent/tools.py:28-30, 58-61). The catalog is an input value. A missing file for a language is not modelled.
- The randomness of `random.sample`. The draw is an input sequence, and it is required to hold distinct catalog keys only when the sample size is valid.
- `json.loads` itself. It is the abstract parser parameter, with None standing for a decode error.
- The translation model call and the prompt text (agent/tools.py:9-12, 84-94). The reply text is an input. `getattr(response, "content", ...)` is taken to give a string.
- Catalog entries that are not JSON objects, and `word` or `word_difficulty` values that are not strings. An entry is a pair of optional strings.
- Translation.Iterate: iterating a dict yields its keys, all of which are strings and none of which is a dict. The model gives the empty sequence for them, which changes nothing the comprehension produces.
- Translation.ModelMap: keeps only string keys. A `null`, bool or number source is a dict key that no string lookup can equal, so leaving it out changes no lookup.
- Translation.Capitalize: covers ASCII only. Python upper-cases the first non-ASCII character by Unicode title case and lower-cases the rest by Unicode rules; the model leaves non-ASCII characters unchanged.
- The parameter annotated `random_words: str` is used as a list of words, and the model takes `seq<string>`. Passing a bare string would iterate its characters, which is not modelled.
- Everything in `main.py`: the LangGraph state graph, tool routing, the Ollama model calls, the MCP client for the flashcard store, `asyncio` and `dotenv`. These are library and external-service code.
- Flashcard deck and card creation. It happens through external tools that are not part of this model.
