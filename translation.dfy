/** Reconciliation of a translation reply in `translate_word`: parse the reply
    text (strictly, then the `\{.*\}` span), build the source-to-target lookup
    from its "translations" list, and emit one pair per input word in input
    order. The prompt and the model call are not modelled: the reply text is
    an input, and so is the JSON parser. */
module Translation {
  import opened Wrappers
  import opened Json

  datatype Error =
    /** `json.loads` raises on the span the fallback extracted. */
    | InvalidJson
    /** The parsed reply is not a dict, so `.get` raises AttributeError. */
    | NotAnObject
    /** The "translations" value is None, a bool or a number: not iterable (TypeError). */
    | NotIterable
    /** A dict item's "source" is a list or dict and cannot be a dict key (TypeError). */
    | UnhashableSource

  /** One element of the ordered result: an input word and the target chosen for it. */
  datatype Pair = Pair(source: string, target: JValue)

  // ---------------------------------------------------------------------------
  // Fallback extraction: the regex search for a brace-delimited span,
  // where the wildcard also matches line breaks
  // ---------------------------------------------------------------------------

  function FirstIndexOf(s: string, c: char): (r: Option<nat>)
    ensures r.Some? ==> r.value < |s| && s[r.value] == c
    ensures r.Some? ==> forall k :: 0 <= k < r.value ==> s[k] != c
    ensures r.None? ==> forall k :: 0 <= k < |s| ==> s[k] != c
  {
    if |s| == 0 then None
    else if s[0] == c then Some(0)
    else match FirstIndexOf(s[1..], c)
      case None => None
      case Some(i) => Some(i + 1)
  }

  function LastIndexOf(s: string, c: char): (r: Option<nat>)
    ensures r.Some? ==> r.value < |s| && s[r.value] == c
    ensures r.Some? ==> forall k :: r.value < k < |s| ==> s[k] != c
    ensures r.None? ==> forall k :: 0 <= k < |s| ==> s[k] != c
  {
    if |s| == 0 then None
    else if s[|s| - 1] == c then Some(|s| - 1)
    else LastIndexOf(s[..|s| - 1], c)
  }

  /** text[i..j+1] matches `\{.*\}` when `.` matches every character (DOTALL). */
  predicate BraceSpan(text: string, i: int, j: int) {
    0 <= i < j < |text| && text[i] == '{' && text[j] == '}'
  }

  /** The substring the regex search returns, if any: from the first '{' to the last '}'. */
  function ExtractObject(text: string): (r: Option<string>)
    ensures r.Some? ==> 2 <= |r.value| <= |text|
    ensures r.Some? ==> r.value[0] == '{' && r.value[|r.value| - 1] == '}'
    ensures r.Some? ==> exists i, j :: BraceSpan(text, i, j) && r.value == text[i..j + 1]
  {
    match FirstIndexOf(text, '{')
    case None => None
    case Some(i) =>
      match LastIndexOf(text, '}')
      case None => None
      case Some(j) =>
        if i < j then assert BraceSpan(text, i, j); Some(text[i..j + 1]) else None
  }

  /** ExtractObject is the leftmost, longest match of the pattern: it finds a span
      exactly when one exists, and its span contains every other span. */
  lemma ExtractIsLeftmostLongest(text: string)
    ensures ExtractObject(text).None? <==> forall i, j :: !BraceSpan(text, i, j)
    ensures ExtractObject(text).Some? ==>
              exists i, j :: && BraceSpan(text, i, j)
                             && ExtractObject(text).value == text[i..j + 1]
                             && forall i2, j2 :: BraceSpan(text, i2, j2) ==> i <= i2 && j2 <= j
  {
    var first := FirstIndexOf(text, '{');
    var last := LastIndexOf(text, '}');
    if first.Some? && last.Some? && first.value < last.value {
      var i, j := first.value, last.value;
      assert BraceSpan(text, i, j);
      forall i2, j2 | BraceSpan(text, i2, j2) ensures i <= i2 && j2 <= j {
      }
    } else {
      forall i, j ensures !BraceSpan(text, i, j) {
      }
    }
  }

  // ---------------------------------------------------------------------------
  // Parsing policy: strict parse, then the extracted span, else {}
  // ---------------------------------------------------------------------------

  function ParseReply(text: string, parse: Parser): (r: Result<JValue, Error>)
    ensures parse(text).Some? ==> r == Ok(parse(text).value)
    ensures parse(text).None? && ExtractObject(text).None? ==> r == Ok(JObj(map[]))
    ensures parse(text).None? && ExtractObject(text).Some? ==>
              r == (match parse(ExtractObject(text).value)
                    case Some(v) => Ok(v)
                    case None => Err(InvalidJson))
    ensures r.Err? <==> parse(text).None? && ExtractObject(text).Some?
                        && parse(ExtractObject(text).value).None?
  {
    match parse(text)
    case Some(v) => Ok(v)
    case None =>
      match ExtractObject(text)
      case None => Ok(JObj(map[]))
      case Some(span) =>
        match parse(span)
        case Some(v) => Ok(v)
        case None => Err(InvalidJson)
  }

  // ---------------------------------------------------------------------------
  // Reading the "translations" member of the reply (default: an empty list)
  // and iterating it
  // ---------------------------------------------------------------------------

  /** What `for item in v` yields. Iterating a str yields its characters and
      iterating a dict yields its keys; none of those is a dict, so for a dict
      the empty sequence stands in for its keys (the comprehension skips them all). */
  function Iterate(v: JValue): (r: Result<seq<JValue>, Error>)
    ensures r.Err? <==> v.JNull? || v.JBool? || v.JNum?
    ensures r.Ok? ==> forall k :: 0 <= k < |r.value| ==> v.JArr? || !r.value[k].JObj?
    ensures v.JArr? ==> r == Ok(v.items)
  {
    match v
    case JArr(items) => Ok(items)
    case JStr(s) => Ok(seq(|s|, k requires 0 <= k < |s| => JStr([s[k]])))
    case JObj(_) => Ok([])
    case _ => Err(NotIterable)
  }

  function TranslationsList(parsed: JValue): (r: Result<seq<JValue>, Error>)
    ensures !parsed.JObj? ==> r == Err(NotAnObject)
    ensures parsed.JObj? && "translations" !in parsed.fields ==> r == Ok([])
    ensures parsed.JObj? && "translations" in parsed.fields ==> r == Iterate(parsed.fields["translations"])
  {
    match parsed
    case JObj(fields) => Iterate(Get(fields, "translations", JArr([])))
    case _ => Err(NotAnObject)
  }

  // ---------------------------------------------------------------------------
  // The lookup from each dict item's source to its target, later items
  // overriding earlier ones
  // ---------------------------------------------------------------------------

  function SourceOf(fields: map<string, JValue>): JValue {
    Get(fields, "source", JStr(""))
  }

  function TargetOf(fields: map<string, JValue>): JValue {
    Get(fields, "target", JStr(""))
  }

  /** A dict item whose source is the string s. */
  predicate HasSource(item: JValue, s: string) {
    item.JObj? && SourceOf(item.fields) == JStr(s)
  }

  /** A dict item whose source cannot be a dict key. */
  predicate BadSource(item: JValue) {
    item.JObj? && !Hashable(SourceOf(item.fields))
  }

  /** items[i] is the last item whose source is s. */
  predicate LastSourceAt(items: seq<JValue>, s: string, i: int)
    requires 0 <= i < |items|
  {
    HasSource(items[i], s) && forall k :: i < k < |items| ==> !HasSource(items[k], s)
  }

  /** The lookup, restricted to str keys: a None, bool or number source is a
      key that no str lookup can hit, so leaving it out changes no lookup. */
  function ModelMap(items: seq<JValue>): (r: Result<map<string, JValue>, Error>)
    ensures r.Err? ==> r.error == UnhashableSource
    decreases |items|
  {
    if items == [] then Ok(map[])
    else
      var prefix :- ModelMap(items[..|items| - 1]);
      var last := items[|items| - 1];
      if !last.JObj? then Ok(prefix)
      else match SourceOf(last.fields)
        case JStr(s) => Ok(prefix[s := TargetOf(last.fields)])
        case JArr(_) => Err(UnhashableSource)
        case JObj(_) => Err(UnhashableSource)
        case _ => Ok(prefix)
  }

  /** Building the lookup fails exactly when some dict item has a list or dict source. */
  lemma {:induction false} ModelMapFails(items: seq<JValue>)
    ensures ModelMap(items).Err? <==> exists i :: 0 <= i < |items| && BadSource(items[i])
    ensures ModelMap(items).Err? ==> ModelMap(items).error == UnhashableSource
    decreases |items|
  {
    if items != [] {
      var p := items[..|items| - 1];
      ModelMapFails(p);
      assert forall i :: 0 <= i < |p| ==> p[i] == items[i];
      if exists i :: 0 <= i < |items| && BadSource(items[i]) {
        var i :| 0 <= i < |items| && BadSource(items[i]);
        if i < |p| { assert BadSource(p[i]); }
      }
    }
  }

  /** The lookup has a key for exactly the str sources of dict items, and each
      key maps to the target of the last item with that source. */
  lemma {:induction false} ModelMapContents(items: seq<JValue>)
    requires ModelMap(items).Ok?
    ensures forall s :: s in ModelMap(items).value <==> exists i :: 0 <= i < |items| && HasSource(items[i], s)
    ensures forall s, i :: 0 <= i < |items| && LastSourceAt(items, s, i) ==>
              s in ModelMap(items).value && ModelMap(items).value[s] == TargetOf(items[i].fields)
    decreases |items|
  {
    if items != [] {
      var n := |items|;
      var p := items[..n - 1];
      var last := items[n - 1];
      assert forall i :: 0 <= i < |p| ==> p[i] == items[i];
      ModelMapContents(p);
      var m := ModelMap(items).value;
      var pm := ModelMap(p).value;
      forall s ensures s in m <==> exists i :: 0 <= i < n && HasSource(items[i], s) {
        if s in m {
          if HasSource(last, s) {
            assert HasSource(items[n - 1], s);
          } else {
            var i :| 0 <= i < |p| && HasSource(p[i], s);
            assert HasSource(items[i], s);
          }
        }
        if exists i :: 0 <= i < n && HasSource(items[i], s) {
          var i :| 0 <= i < n && HasSource(items[i], s);
          if i < n - 1 { assert HasSource(p[i], s); }
        }
      }
      forall s, i | 0 <= i < n && LastSourceAt(items, s, i)
        ensures s in m && m[s] == TargetOf(items[i].fields)
      {
        if i == n - 1 {
        } else {
          assert !HasSource(last, s);
          assert LastSourceAt(p, s, i);
        }
      }
    }
  }

  // ---------------------------------------------------------------------------
  // Target resolution and ordering
  // ---------------------------------------------------------------------------

  function UpperAscii(c: char): (r: char)
    ensures 'a' <= c <= 'z' ==> 'A' <= r <= 'Z' && r as int == c as int - 32
    ensures !('a' <= c <= 'z') ==> r == c
  {
    if 'a' <= c <= 'z' then (c as int - 32) as char else c
  }

  function LowerAscii(c: char): (r: char)
    ensures 'A' <= c <= 'Z' ==> 'a' <= r <= 'z' && r as int == c as int + 32
    ensures !('A' <= c <= 'Z') ==> r == c
  {
    if 'A' <= c <= 'Z' then (c as int + 32) as char else c
  }

  function LowerAll(s: string): (r: string)
    ensures |r| == |s|
    ensures forall k :: 0 <= k < |s| ==> r[k] == LowerAscii(s[k])
  {
    if s == [] then [] else [LowerAscii(s[0])] + LowerAll(s[1..])
  }

  /** Python's `str.capitalize` on ASCII: first character upper case, the rest lower case. */
  function Capitalize(w: string): (r: string)
    ensures |r| == |w|
    ensures |w| > 0 ==> r[0] == UpperAscii(w[0])
    ensures forall k :: 1 <= k < |w| ==> r[k] == LowerAscii(w[k])
  {
    if w == [] then [] else [UpperAscii(w[0])] + LowerAll(w[1..])
  }

  /** Capitalising twice is capitalising once. */
  lemma CapitalizeIdempotent(w: string)
    ensures Capitalize(Capitalize(w)) == Capitalize(w)
  {
  }

  /** The target chosen for w: its own entry, else its capitalised form's entry, else w. */
  function Resolve(mm: map<string, JValue>, w: string): (r: JValue)
    ensures w in mm ==> r == mm[w]
    ensures w !in mm && Capitalize(w) in mm ==> r == mm[Capitalize(w)]
    ensures w !in mm && Capitalize(w) !in mm ==> r == JStr(w)
    ensures r == JStr(w) || r in mm.Values
  {
    if w in mm then mm[w]
    else if Capitalize(w) in mm then mm[Capitalize(w)]
    else JStr(w)
  }

  /** One pair per input word, in input order, each with its resolved target. */
  function OrderedTranslations(words: seq<string>, mm: map<string, JValue>): (r: seq<Pair>)
    ensures |r| == |words|
    ensures forall i :: 0 <= i < |words| ==> r[i].source == words[i] && r[i].target == Resolve(mm, words[i])
  {
    if words == [] then []
    else [Pair(words[0], Resolve(mm, words[0]))] + OrderedTranslations(words[1..], mm)
  }

  /** translate_word, from the reply text to the ordered list of pairs. */
  function Translate(words: seq<string>, reply: string, parse: Parser): (r: Result<seq<Pair>, Error>)
    ensures r.Ok? ==> |r.value| == |words|
    ensures r.Ok? ==> forall i :: 0 <= i < |words| ==> r.value[i].source == words[i]
  {
    var parsed :- ParseReply(reply, parse);
    var items :- TranslationsList(parsed);
    var mm :- ModelMap(items);
    Ok(OrderedTranslations(words, mm))
  }

  /** The identity mapping: every word is its own target. */
  function Identity(words: seq<string>): (r: seq<Pair>)
    ensures |r| == |words|
    ensures forall i :: 0 <= i < |words| ==> r[i] == Pair(words[i], JStr(words[i]))
  {
    if words == [] then [] else [Pair(words[0], JStr(words[0]))] + Identity(words[1..])
  }

  /** With an empty lookup every word resolves to itself. */
  lemma EmptyLookupIsIdentity(words: seq<string>)
    ensures OrderedTranslations(words, map[]) == Identity(words)
  {
  }

  /** A list with no dict item contributes nothing to the lookup. */
  lemma {:induction false} NoDictItemsEmptyLookup(items: seq<JValue>)
    requires forall i :: 0 <= i < |items| ==> !items[i].JObj?
    ensures ModelMap(items) == Ok(map[])
    decreases |items|
  {
    if items != [] {
      var p := items[..|items| - 1];
      assert forall i :: 0 <= i < |p| ==> p[i] == items[i];
      NoDictItemsEmptyLookup(p);
    }
  }

  /** Full fallback: no reply parses and no brace span exists, so the result is the
      identity mapping, and reading the targets back gives the input words. */
  lemma FullFallbackIsIdentity(words: seq<string>, reply: string, parse: Parser)
    requires parse(reply).None?
    requires forall i, j :: !BraceSpan(reply, i, j)
    ensures Translate(words, reply, parse) == Ok(Identity(words))
    ensures forall i :: 0 <= i < |words| ==> Translate(words, reply, parse).value[i].target == JStr(words[i])
  {
    ExtractIsLeftmostLongest(reply);
    assert ParseReply(reply, parse) == Ok(JObj(map[]));
    assert ModelMap([]) == Ok(map[]);
    EmptyLookupIsIdentity(words);
  }

  /** A reply whose "translations" value holds no dict (absent, a str, a dict, or a
      list of non-dicts) also gives the identity mapping. */
  lemma NoUsableItemsIsIdentity(words: seq<string>, reply: string, parse: Parser)
    requires ParseReply(reply, parse).Ok?
    requires TranslationsList(ParseReply(reply, parse).value).Ok?
    requires var items := TranslationsList(ParseReply(reply, parse).value).value;
             forall i :: 0 <= i < |items| ==> !items[i].JObj?
    ensures Translate(words, reply, parse) == Ok(Identity(words))
  {
    var items := TranslationsList(ParseReply(reply, parse).value).value;
    NoDictItemsEmptyLookup(items);
    EmptyLookupIsIdentity(words);
  }

  /** When the reply carries a translation for word i (the last item with that source
      wins), the i-th pair uses its target, even an empty one. */
  lemma ReplyTranslationUsed(words: seq<string>, reply: string, parse: Parser,
                             fields: map<string, JValue>, items: seq<JValue>, i: nat, k: nat)
    requires ParseReply(reply, parse) == Ok(JObj(fields))
    requires "translations" in fields && fields["translations"] == JArr(items)
    requires forall b :: 0 <= b < |items| ==> !BadSource(items[b])
    requires i < |words| && k < |items| && LastSourceAt(items, words[i], k)
    ensures Translate(words, reply, parse).Ok?
    ensures Translate(words, reply, parse).value[i] == Pair(words[i], TargetOf(items[k].fields))
  {
    ModelMapFails(items);
    ModelMapContents(items);
  }

  /** When the reply has no item for word i but has one for its capitalised form,
      that target is used; when it has neither, the word is its own target. */
  lemma CapitalizedFallbackUsed(words: seq<string>, reply: string, parse: Parser,
                                fields: map<string, JValue>, items: seq<JValue>, i: nat)
    requires ParseReply(reply, parse) == Ok(JObj(fields))
    requires "translations" in fields && fields["translations"] == JArr(items)
    requires forall b :: 0 <= b < |items| ==> !BadSource(items[b])
    requires i < |words|
    requires forall b :: 0 <= b < |items| ==> !HasSource(items[b], words[i])
    ensures Translate(words, reply, parse).Ok?
    ensures forall k :: 0 <= k < |items| && LastSourceAt(items, Capitalize(words[i]), k) ==>
              Translate(words, reply, parse).value[i] == Pair(words[i], TargetOf(items[k].fields))
    ensures (forall b :: 0 <= b < |items| ==> !HasSource(items[b], Capitalize(words[i]))) ==>
              Translate(words, reply, parse).value[i] == Pair(words[i], JStr(words[i]))
  {
    ModelMapFails(items);
    ModelMapContents(items);
  }

  /** The ways the reply can make translate_word raise: an unparsable extracted
      span, a reply that is not an object, a non-iterable "translations" value,
      or an item whose source is a list or dict. Any other reply succeeds. */
  lemma TranslateFailsOnlyOn(words: seq<string>, reply: string, parse: Parser)
    ensures Translate(words, reply, parse).Err? <==>
              || ParseReply(reply, parse).Err?
              || TranslationsList(ParseReply(reply, parse).value).Err?
              || exists b :: 0 <= b < |TranslationsList(ParseReply(reply, parse).value).value|
                             && BadSource(TranslationsList(ParseReply(reply, parse).value).value[b])
    ensures parse(reply).None? && ExtractObject(reply).Some? && parse(ExtractObject(reply).value).None? ==>
              Translate(words, reply, parse) == Err(InvalidJson)
    ensures parse(reply).Some? && !parse(reply).value.JObj? ==>
              Translate(words, reply, parse) == Err(NotAnObject)
  {
    var p := ParseReply(reply, parse);
    if p.Ok? {
      var t := TranslationsList(p.value);
      if t.Ok? {
        ModelMapFails(t.value);
      }
    }
  }
}
