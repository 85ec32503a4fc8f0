/** The search-page URL builder: a search is a record of optional fields;
    each present field renders as one query fragment, the fragments are
    joined with `+`, five characters are percent-encoded, and the query is
    placed in the search URL. */
module Search {
  import opened Base
  import opened Text

  datatype Search = Search(
    allWords: Option<seq<string>>,
    exactPhrase: Option<seq<string>>,
    anyWords: Option<seq<string>>,
    noneWords: Option<seq<string>>,
    hashtags: Option<seq<string>>,
    language: Option<string>,
    fromAccounts: Option<seq<string>>,
    toTheseAccounts: Option<seq<string>>,
    mentioningAccounts: Option<seq<string>>,
    minimumReplies: Option<u32>,
    minimumLikes: Option<u32>,
    minimumRetweets: Option<u32>,
    dateFrom: Option<string>,
    dateTo: Option<string>)

  /** The search with every field absent (`Search::default()`). */
  const EmptySearch: Search :=
    Search(None, None, None, None, None, None, None, None, None, None, None, None, None, None)

  /** `URL_ENC_MAP`: the five characters that are percent-encoded. */
  const UrlEncMap: map<char, string> :=
    map['+' := "%2B", '"' := "%22", ':' := "%3A", '#' := "%23", '@' := "%40"]

  const SearchUrlPrefix: string := "https://twitter.com/search?lang=en&q="
  const SearchUrlSuffix: string := "&src=typed_query"

  /** No encoded value contains a character that is itself encoded, so the
      replacements cannot feed each other. */
  lemma EncValuesAvoidKeys()
    ensures forall d, c :: d in UrlEncMap && c in UrlEncMap ==> c !in UrlEncMap[d]
  {
    forall d, c | d in UrlEncMap && c in UrlEncMap ensures c !in UrlEncMap[d] {
      assert d == '+' || d == '"' || d == ':' || d == '#' || d == '@';
      assert c == '+' || c == '"' || c == ':' || c == '#' || c == '@';
      assert forall j :: 0 <= j < |UrlEncMap[d]| ==> UrlEncMap[d][j] in "%2B3A40";
    }
  }

  // Renderings of the individual fields.

  function Paren(s: string): string { "(" + s + ")" }

  /** `(a+OR+b+OR+...)`. */
  function OrGroup(ws: seq<string>): string { Paren(Join(ws, "+OR+")) }

  /** Each word with an operator in front of it (`from:a`, `to:a`). */
  function PrefixEach(op: string, ws: seq<string>): (r: seq<string>)
    ensures |r| == |ws| && forall k :: 0 <= k < |ws| ==> r[k] == op + ws[k]
  {
    seq(|ws|, k requires 0 <= k < |ws| => op + ws[k])
  }

  function AccountsGroup(op: string, ws: seq<string>): string { OrGroup(PrefixEach(op, ws)) }

  function QuotedPhrase(ws: seq<string>): string { "\"" + Join(ws, "+") + "\"" }

  function Excluded(ws: seq<string>): string { "-" + Join(ws, "+-") }

  function Labelled(name: string, n: u32): string { name + ":" + Decimal(n) }

  /** The fragment of slot `k` (0..13) of `format_text`, in its order: empty
      when the field the slot reads is absent. The hashtag slot (4) and the
      mention slot (7) read `none_words`, the `to:` slot (6) reads
      `from_accounts`, and `date_to` (12) renders with `since:` like
      `date_from` (13). */
  function Slot(s: Search, k: nat): seq<string>
  {
    match k
    case 0 => if s.allWords.Some? then [Join(s.allWords.value, "+")] else []
    case 1 => if s.exactPhrase.Some? then [QuotedPhrase(s.exactPhrase.value)] else []
    case 2 => if s.anyWords.Some? then [OrGroup(s.anyWords.value)] else []
    case 3 => if s.noneWords.Some? then [Excluded(s.noneWords.value)] else []
    case 4 => if s.noneWords.Some? then [OrGroup(s.noneWords.value)] else []
    case 5 => if s.fromAccounts.Some? then [AccountsGroup("from:", s.fromAccounts.value)] else []
    case 6 => if s.fromAccounts.Some? then [AccountsGroup("to:", s.fromAccounts.value)] else []
    case 7 => if s.noneWords.Some? then [OrGroup(s.noneWords.value)] else []
    case 8 => if s.minimumReplies.Some? then [Labelled("min_replies", s.minimumReplies.value)] else []
    case 9 => if s.minimumLikes.Some? then [Labelled("min_faves", s.minimumLikes.value)] else []
    case 10 => if s.minimumRetweets.Some? then [Labelled("min_retweets", s.minimumRetweets.value)] else []
    case 11 => if s.language.Some? then ["lang::" + s.language.value] else []
    case 12 => if s.dateTo.Some? then ["since:" + s.dateTo.value] else []
    case 13 => if s.dateFrom.Some? then ["since:" + s.dateFrom.value] else []
    case _ => []
  }

  /** The fragments of the first `n` slots, in order. */
  function SlotsUpTo(s: Search, n: nat): seq<string>
  {
    if n == 0 then [] else SlotsUpTo(s, n - 1) + Slot(s, n - 1)
  }

  const SlotCount: nat := 14

  /** The fragments `format_text` pushes, in its order. */
  function Fragments(s: Search): seq<string>
  {
    SlotsUpTo(s, SlotCount)
  }

  /** The fourteen slots, written out. */
  lemma FragmentsBySlot(s: Search)
    ensures Fragments(s) == Slot(s, 0) + Slot(s, 1) + Slot(s, 2) + Slot(s, 3) + Slot(s, 4) + Slot(s, 5)
      + Slot(s, 6) + Slot(s, 7) + Slot(s, 8) + Slot(s, 9) + Slot(s, 10) + Slot(s, 11) + Slot(s, 12) + Slot(s, 13)
  {
    assert SlotsUpTo(s, 1) == Slot(s, 0);
    assert SlotsUpTo(s, 2) == SlotsUpTo(s, 1) + Slot(s, 1);
    assert SlotsUpTo(s, 3) == SlotsUpTo(s, 2) + Slot(s, 2);
    assert SlotsUpTo(s, 4) == SlotsUpTo(s, 3) + Slot(s, 3);
    assert SlotsUpTo(s, 5) == SlotsUpTo(s, 4) + Slot(s, 4);
    assert SlotsUpTo(s, 6) == SlotsUpTo(s, 5) + Slot(s, 5);
    assert SlotsUpTo(s, 7) == SlotsUpTo(s, 6) + Slot(s, 6);
    assert SlotsUpTo(s, 8) == SlotsUpTo(s, 7) + Slot(s, 7);
    assert SlotsUpTo(s, 9) == SlotsUpTo(s, 8) + Slot(s, 8);
    assert SlotsUpTo(s, 10) == SlotsUpTo(s, 9) + Slot(s, 9);
    assert SlotsUpTo(s, 11) == SlotsUpTo(s, 10) + Slot(s, 10);
    assert SlotsUpTo(s, 12) == SlotsUpTo(s, 11) + Slot(s, 11);
    assert SlotsUpTo(s, 13) == SlotsUpTo(s, 12) + Slot(s, 12);
    assert SlotsUpTo(s, 14) == SlotsUpTo(s, 13) + Slot(s, 13);
  }

  /** Searches whose first `n` slots render alike have the same first `n` fragments. */
  lemma {:induction false} SlotsAgree(s1: Search, s2: Search, n: nat)
    requires forall k :: 0 <= k < n ==> Slot(s1, k) == Slot(s2, k)
    ensures SlotsUpTo(s1, n) == SlotsUpTo(s2, n)
  {
    if n > 0 {
      SlotsAgree(s1, s2, n - 1);
    }
  }

  /** When every slot below `n` but `k` is empty, the fragments are slot `k`'s. */
  lemma {:induction false} SlotsUpToOnly(s: Search, n: nat, k: nat)
    requires forall j :: 0 <= j < n && j != k ==> Slot(s, j) == []
    ensures SlotsUpTo(s, n) == if k < n then Slot(s, k) else []
  {
    if n > 0 {
      SlotsUpToOnly(s, n - 1, k);
    }
  }

  /** Percent-encodes the five characters of `URL_ENC_MAP`. */
  function EncodeQuery(q: string): string
  {
    MapChars(q, UrlEncMap)
  }

  function SearchQuery(s: Search): string
  {
    EncodeQuery(Join(Fragments(s), "+"))
  }

  /** The URL `format_text` returns: the fixed search prefix, the encoded query,
      which holds none of the five encoded characters, and the fixed suffix. */
  function SearchUrl(s: Search): (url: string)
    ensures |url| >= |SearchUrlPrefix| + |SearchUrlSuffix|
    ensures url[..|SearchUrlPrefix|] == SearchUrlPrefix
    ensures url[|url| - |SearchUrlSuffix|..] == SearchUrlSuffix
    ensures forall c :: c in UrlEncMap ==> c !in url[|SearchUrlPrefix|..|url| - |SearchUrlSuffix|]
  {
    var q := SearchQuery(s);
    EncValuesAvoidKeys();
    forall c | c in UrlEncMap ensures c !in q {
      MapCharsRemovesKey(Join(Fragments(s), "+"), UrlEncMap, c);
    }
    var url := SearchUrlPrefix + q + SearchUrlSuffix;
    assert url[|SearchUrlPrefix|..|url| - |SearchUrlSuffix|] == q;
    url
  }

  predicate Distinct(keys: seq<char>) {
    forall i, j :: 0 <= i < j < |keys| ==> keys[i] != keys[j]
  }

  /** An iteration order of `URL_ENC_MAP`: each key exactly once. The order a
      `HashMap` yields is unspecified, so every such order is allowed. */
  predicate EnumeratesEncMap(order: seq<char>) {
    Distinct(order) && forall k :: k in UrlEncMap <==> k in order
  }

  /** The replacement loop of `format_text`: one `replace` per key, in order. */
  function ReplaceInOrder(q: string, keys: seq<char>): string
    requires forall k :: k in keys ==> k in UrlEncMap
  {
    if keys == [] then q
    else
      var k := keys[|keys| - 1];
      ReplaceAll(ReplaceInOrder(q, keys[..|keys| - 1]), [k], UrlEncMap[k])
  }

  /** The part of `URL_ENC_MAP` whose keys are in `keys`. */
  function EncFor(keys: seq<char>): map<char, string>
  {
    map k | k in keys && k in UrlEncMap :: UrlEncMap[k]
  }

  /** Replacing the keys one after the other encodes exactly those keys. */
  lemma {:induction false} ReplaceInOrderEncodes(q: string, keys: seq<char>)
    requires Distinct(keys) && forall k :: k in keys ==> k in UrlEncMap
    ensures ReplaceInOrder(q, keys) == MapChars(q, EncFor(keys))
  {
    if keys == [] {
      MapCharsIdentity(q, EncFor(keys));
    } else {
      var init, k := keys[..|keys| - 1], keys[|keys| - 1];
      ReplaceInOrderEncodes(q, init);
      ReplaceCharIsMapChars(ReplaceInOrder(q, init), k, UrlEncMap[k]);
      EncValuesAvoidKeys();
      assert k !in EncFor(init);
      MapCharsCompose(q, EncFor(init), k, UrlEncMap[k]);
      assert EncFor(init)[k := UrlEncMap[k]] == EncFor(keys);
    }
  }

  /** The result does not depend on the map's iteration order. */
  lemma EncodingOrderIrrelevant(q: string, order: seq<char>)
    requires EnumeratesEncMap(order)
    ensures ReplaceInOrder(q, order) == EncodeQuery(q)
  {
    ReplaceInOrderEncodes(q, order);
    assert EncFor(order) == UrlEncMap;
  }

  /** The first eight pushes of `format_text`: the word, phrase, hashtag and
      account fragments. */
  method PushTermFragments(s: Search) returns (searchParams: seq<string>)
    ensures searchParams == SlotsUpTo(s, 8)
  {
    searchParams := [];
    if s.allWords.Some? {
      searchParams := searchParams + [Join(s.allWords.value, "+")];
    }
    assert searchParams == SlotsUpTo(s, 1);
    if s.exactPhrase.Some? {
      searchParams := searchParams + [QuotedPhrase(s.exactPhrase.value)];
    }
    assert searchParams == SlotsUpTo(s, 2);
    if s.anyWords.Some? {
      searchParams := searchParams + [OrGroup(s.anyWords.value)];
    }
    assert searchParams == SlotsUpTo(s, 3);
    if s.noneWords.Some? {
      searchParams := searchParams + [Excluded(s.noneWords.value)];
    }
    assert searchParams == SlotsUpTo(s, 4);
    // the hashtag slot
    if s.noneWords.Some? {
      searchParams := searchParams + [OrGroup(s.noneWords.value)];
    }
    assert searchParams == SlotsUpTo(s, 5);
    if s.fromAccounts.Some? {
      searchParams := searchParams + [AccountsGroup("from:", s.fromAccounts.value)];
    }
    assert searchParams == SlotsUpTo(s, 6);
    // the to-accounts slot
    if s.fromAccounts.Some? {
      searchParams := searchParams + [AccountsGroup("to:", s.fromAccounts.value)];
    }
    assert searchParams == SlotsUpTo(s, 7);
    // the mentioned-accounts slot
    if s.noneWords.Some? {
      searchParams := searchParams + [OrGroup(s.noneWords.value)];
    }
  }

  /** The remaining six pushes of `format_text`: the minimum counts, the
      language and the two dates. */
  method PushFilterFragments(s: Search, terms: seq<string>) returns (searchParams: seq<string>)
    requires terms == SlotsUpTo(s, 8)
    ensures searchParams == Fragments(s)
  {
    searchParams := terms;
    if s.minimumReplies.Some? {
      searchParams := searchParams + [Labelled("min_replies", s.minimumReplies.value)];
    }
    assert searchParams == SlotsUpTo(s, 9);
    if s.minimumLikes.Some? {
      searchParams := searchParams + [Labelled("min_faves", s.minimumLikes.value)];
    }
    assert searchParams == SlotsUpTo(s, 10);
    if s.minimumRetweets.Some? {
      searchParams := searchParams + [Labelled("min_retweets", s.minimumRetweets.value)];
    }
    assert searchParams == SlotsUpTo(s, 11);
    if s.language.Some? {
      searchParams := searchParams + ["lang::" + s.language.value];
    }
    assert searchParams == SlotsUpTo(s, 12);
    if s.dateTo.Some? {
      searchParams := searchParams + ["since:" + s.dateTo.value];
    }
    assert searchParams == SlotsUpTo(s, 13);
    if s.dateFrom.Some? {
      searchParams := searchParams + ["since:" + s.dateFrom.value];
    }
    assert searchParams == SlotsUpTo(s, 14);
  }

  /** `format_text`: pushes one fragment per present field, joins them with
      `+`, replaces the keys of `URL_ENC_MAP` in the map's iteration order
      `encOrder`, and wraps the query in the search URL. */
  method FormatText(s: Search, encOrder: seq<char>) returns (url: string)
    requires EnumeratesEncMap(encOrder)
    ensures url == SearchUrl(s)
  {
    var searchParams := PushTermFragments(s);
    searchParams := PushFilterFragments(s, searchParams);
    assert searchParams == Fragments(s);

    var paramsJoined := Join(searchParams, "+");
    ghost var joined := paramsJoined;
    var i := 0;
    while i < |encOrder|
      invariant 0 <= i <= |encOrder|
      invariant paramsJoined == ReplaceInOrder(joined, encOrder[..i])
    {
      var key := encOrder[i];
      paramsJoined := ReplaceAll(paramsJoined, [key], UrlEncMap[key]);
      assert encOrder[..i + 1][..i] == encOrder[..i];
      i := i + 1;
    }
    assert encOrder[..i] == encOrder;
    EncodingOrderIrrelevant(joined, encOrder);
    url := SearchUrlPrefix + paramsJoined + SearchUrlSuffix;
  }

  /** With every field absent the query is empty. */
  lemma EmptySearchUrl()
    ensures SearchUrl(EmptySearch) == SearchUrlPrefix + SearchUrlSuffix
  {
    SlotsUpToOnly(EmptySearch, SlotCount, SlotCount);
    assert SearchQuery(EmptySearch) == [];
  }

  /** The hashtag, to-accounts and mentioned-accounts fields never reach the URL. */
  lemma UnreadFieldsIgnored(s: Search, h: Option<seq<string>>, t: Option<seq<string>>, m: Option<seq<string>>)
    ensures SearchUrl(s.(hashtags := h, toTheseAccounts := t, mentioningAccounts := m)) == SearchUrl(s)
  {
    SlotsAgree(s.(hashtags := h, toTheseAccounts := t, mentioningAccounts := m), s, SlotCount);
  }

  /** `none_words` fills three slots: its own, the hashtag one and the mention one. */
  lemma NoneWordsFillThreeSlots(ws: seq<string>)
    ensures Fragments(EmptySearch.(noneWords := Some(ws))) == [Excluded(ws), OrGroup(ws), OrGroup(ws)]
  {
    FragmentsBySlot(EmptySearch.(noneWords := Some(ws)));
  }

  /** `from_accounts` fills its own slot and the `to:` slot. */
  lemma FromAccountsFillTwoSlots(ws: seq<string>)
    ensures Fragments(EmptySearch.(fromAccounts := Some(ws)))
            == [AccountsGroup("from:", ws), AccountsGroup("to:", ws)]
  {
    var s := EmptySearch.(fromAccounts := Some(ws));
    FragmentsBySlot(s);
    assert Slot(s, 5) == [AccountsGroup("from:", ws)];
    assert Slot(s, 6) == [AccountsGroup("to:", ws)];
  }

  /** `date_to` and `date_from` render alike: swapping one for the other leaves
      the URL unchanged. */
  lemma DatesRenderAlike(s: Search, v: string)
    ensures SearchUrl(s.(dateTo := Some(v), dateFrom := None)) == SearchUrl(s.(dateTo := None, dateFrom := Some(v)))
  {
    var s1, s2 := s.(dateTo := Some(v), dateFrom := None), s.(dateTo := None, dateFrom := Some(v));
    SlotsAgree(s1, s2, 12);
    assert SlotsUpTo(s1, 14) == SlotsUpTo(s1, 12) + Slot(s1, 12) + Slot(s1, 13);
    assert SlotsUpTo(s2, 14) == SlotsUpTo(s2, 12) + Slot(s2, 12) + Slot(s2, 13);
    assert Fragments(s1) == Fragments(s2);
  }

  /** Encoding commutes with joining when the words hold no encoded character. */
  lemma {:induction false} EncodeJoin(ws: seq<string>, sep: string)
    requires forall k, c :: 0 <= k < |ws| && c in UrlEncMap ==> c !in ws[k]
    ensures EncodeQuery(Join(ws, sep)) == Join(ws, EncodeQuery(sep))
  {
    if |ws| == 1 {
      MapCharsIdentity(ws[0], UrlEncMap);
    } else if |ws| > 1 {
      EncodeJoin(ws[1..], sep);
      MapCharsAppend(ws[0] + sep, Join(ws[1..], sep), UrlEncMap);
      MapCharsAppend(ws[0], sep, UrlEncMap);
      MapCharsIdentity(ws[0], UrlEncMap);
    }
  }

  /** A search with a single fragment queries that fragment, encoded. */
  lemma SingleFragmentQuery(s: Search, f: string)
    requires Fragments(s) == [f]
    ensures SearchQuery(s) == EncodeQuery(f)
  {
    assert Join(Fragments(s), "+") == f;
  }

  /** A search whose only rendered slot is `k` queries that slot's fragment, encoded. */
  lemma SingleFieldQuery(s: Search, k: nat)
    requires k < SlotCount && |Slot(s, k)| == 1
    requires forall j :: 0 <= j < SlotCount && j != k ==> Slot(s, j) == []
    ensures SearchQuery(s) == EncodeQuery(Slot(s, k)[0])
  {
    SlotsUpToOnly(s, SlotCount, k);
    assert Fragments(s) == [Slot(s, k)[0]];
    SingleFragmentQuery(s, Slot(s, k)[0]);
  }

  lemma EncodePlus()
    ensures EncodeQuery("+") == "%2B"
  {
    assert MapChars("+"[1..], UrlEncMap) == [];
  }

  /** Words without encoded characters reach the query as they are, with each
      joining `+` encoded as `%2B`. */
  lemma AllWordsQuery(ws: seq<string>)
    requires forall k, c :: 0 <= k < |ws| && c in UrlEncMap ==> c !in ws[k]
    ensures SearchQuery(EmptySearch.(allWords := Some(ws))) == Join(ws, "%2B")
  {
    SingleFieldQuery(EmptySearch.(allWords := Some(ws)), 0);
    EncodeJoin(ws, "+");
    EncodePlus();
  }

  /** A label without encoded characters, a colon and a count encode as the
      label, `%3A` and the count's digits. */
  lemma LabelledQuery(name: string, n: u32)
    requires forall j :: 0 <= j < |name| ==> name[j] !in UrlEncMap
    ensures EncodeQuery(Labelled(name, n)) == name + "%3A" + Decimal(n)
  {
    MapCharsAppend(name + ":", Decimal(n), UrlEncMap);
    MapCharsAppend(name, ":", UrlEncMap);
    MapCharsIdentity(name, UrlEncMap);
    MapCharsIdentity(Decimal(n), UrlEncMap);
    assert MapChars(":", UrlEncMap) == "%3A" by {
      assert MapChars(":"[1..], UrlEncMap) == [];
    }
  }

  /** A minimum reply count renders as `min_replies`, an encoded colon and its digits. */
  lemma MinRepliesQuery(n: u32)
    ensures SearchQuery(EmptySearch.(minimumReplies := Some(n))) == "min_replies%3A" + Decimal(n)
  {
    SingleFieldQuery(EmptySearch.(minimumReplies := Some(n)), 8);
    LabelledQuery("min_replies", n);
  }

  /** A minimum like count renders as `min_faves`, an encoded colon and its digits. */
  lemma MinLikesQuery(n: u32)
    ensures SearchQuery(EmptySearch.(minimumLikes := Some(n))) == "min_faves%3A" + Decimal(n)
  {
    SingleFieldQuery(EmptySearch.(minimumLikes := Some(n)), 9);
    LabelledQuery("min_faves", n);
  }

  /** A minimum retweet count renders as `min_retweets`, an encoded colon and its digits. */
  lemma MinRetweetsQuery(n: u32)
    ensures SearchQuery(EmptySearch.(minimumRetweets := Some(n))) == "min_retweets%3A" + Decimal(n)
  {
    SingleFieldQuery(EmptySearch.(minimumRetweets := Some(n)), 10);
    LabelledQuery("min_retweets", n);
  }

  /** The slots with each one reading its own field and `date_to` rendered
      with `until:`, as the field names evidently mean. */
  function SlotIntended(s: Search, k: nat): seq<string>
  {
    match k
    case 4 => if s.hashtags.Some? then [OrGroup(s.hashtags.value)] else []
    case 6 => if s.toTheseAccounts.Some? then [AccountsGroup("to:", s.toTheseAccounts.value)] else []
    case 7 => if s.mentioningAccounts.Some? then [OrGroup(s.mentioningAccounts.value)] else []
    case 12 => if s.dateTo.Some? then ["until:" + s.dateTo.value] else []
    case _ => Slot(s, k)
  }

  function SlotsIntendedUpTo(s: Search, n: nat): seq<string>
  {
    if n == 0 then [] else SlotsIntendedUpTo(s, n - 1) + SlotIntended(s, n - 1)
  }

  function FragmentsIntended(s: Search): seq<string>
  {
    SlotsIntendedUpTo(s, SlotCount)
  }

  /** When every intended slot below `n` but `k` is empty, the fragments are slot `k`'s. */
  lemma {:induction false} SlotsIntendedUpToOnly(s: Search, n: nat, k: nat)
    requires forall j :: 0 <= j < n && j != k ==> SlotIntended(s, j) == []
    ensures SlotsIntendedUpTo(s, n) == if k < n then SlotIntended(s, k) else []
  {
    if n > 0 {
      SlotsIntendedUpToOnly(s, n - 1, k);
    }
  }

  function SearchUrlIntended(s: Search): string
  {
    SearchUrlPrefix + EncodeQuery(Join(FragmentsIntended(s), "+")) + SearchUrlSuffix
  }

  /** In the intended rendering each field fills exactly its own slot, and the
      two dates are told apart. */
  lemma IntendedSlotsReadOwnFields(ws: seq<string>, v: string)
    ensures FragmentsIntended(EmptySearch.(hashtags := Some(ws))) == [OrGroup(ws)]
    ensures FragmentsIntended(EmptySearch.(toTheseAccounts := Some(ws))) == [AccountsGroup("to:", ws)]
    ensures FragmentsIntended(EmptySearch.(mentioningAccounts := Some(ws))) == [OrGroup(ws)]
    ensures FragmentsIntended(EmptySearch.(noneWords := Some(ws))) == [Excluded(ws)]
    ensures FragmentsIntended(EmptySearch.(fromAccounts := Some(ws))) == [AccountsGroup("from:", ws)]
    ensures FragmentsIntended(EmptySearch.(dateTo := Some(v))) == ["until:" + v]
    ensures FragmentsIntended(EmptySearch.(dateFrom := Some(v))) == ["since:" + v]
  {
    SlotsIntendedUpToOnly(EmptySearch.(hashtags := Some(ws)), SlotCount, 4);
    SlotsIntendedUpToOnly(EmptySearch.(toTheseAccounts := Some(ws)), SlotCount, 6);
    SlotsIntendedUpToOnly(EmptySearch.(mentioningAccounts := Some(ws)), SlotCount, 7);
    SlotsIntendedUpToOnly(EmptySearch.(noneWords := Some(ws)), SlotCount, 3);
    SlotsIntendedUpToOnly(EmptySearch.(fromAccounts := Some(ws)), SlotCount, 5);
    SlotsIntendedUpToOnly(EmptySearch.(dateTo := Some(v)), SlotCount, 12);
    SlotsIntendedUpToOnly(EmptySearch.(dateFrom := Some(v)), SlotCount, 13);
  }
}
