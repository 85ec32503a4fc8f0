/** Small formatting helpers: the paginated user-timeline request URL, the
    name of the day's posts collection, and the random wait bound. The
    current date and the random generator are parameters. */
module Utils {
  import opened Base
  import opened Text

  const ApiPrefix: string := "https://twitter.com/i/api/graphql/"
  const ApiPath: string := "/UserTweets?variables="
  /** Encoded `{"userId":` followed by a lone `%`, as the request is built. */
  const IdOpen: string := "%7B%22userId%22%3A%"
  /** Encoded `{"userId":"`: the opening the query evidently means. */
  const IdOpenQuoted: string := "%7B%22userId%22%3A%22"
  /** Encoded `","count":`. */
  const IdClose: string := "%22%2C%22count%22%3A"
  /** Encoded `,"`. */
  const CountClose: string := "%2C%22"
  /** The rest of the query, verbatim with the line break and indentation
      that surround it in the raw string literal; written in pieces that
      meet at each encoded comma. */
  const RemainderStr: string := "\n        includePromotedContent%22%3Atrue" + "%2C" + "%22withQuickPromoteEligibilityTweetFields%22%3Atrue" + "%2C" + "%22withSuperFollowsUserFields%22%3Atrue" + "%2C" + "%22withDownvotePerspective%22%3Afalse" + "%2C" + "%22withReactionsMetadata%22%3Afalse" + "%2C" + "%22withReactionsPerspective%22%3Afalse" + "%2C" + "%22withSuperFollowsTweetFields%22%3Atrue" + "%2C" + "%22withVoice%22%3Atrue" + "%2C" + "%22withV2Timeline%22%3Atrue" + "%2C" + "%22__fs_responsive_web_like_by_author_enabled%22%3Afalse" + "%2C" + "%22__fs_dont_mention_me_view_api_enabled%22%3Atrue" + "%2C" + "%22__fs_interactive_text_enabled%22%3Atrue" + "%2C" + "%22__fs_responsive_web_uc_gql_enabled%22%3Afalse" + "%2C" + "%22__fs_responsive_web_edit_tweet_api_enabled%22%3Afalse%7D\n    "

  /** The fixed pieces of the request URL, around the link id, the user id
      and the count. The lemmas are stated for any pieces of the right shape,
      and hold for the URL as written and for the corrected one. */
  datatype UrlParts = UrlParts(apiPrefix: string, apiPath: string, idOpen: string,
                               idClose: string, countClose: string, tail: string)

  /** The pieces `make_get_post_url` uses. */
  const AsWritten: UrlParts := UrlParts(ApiPrefix, ApiPath, IdOpen, IdClose, CountClose, RemainderStr)
  /** The same with the quote before the user id restored. */
  const Quoted: UrlParts := AsWritten.(idOpen := IdOpenQuoted)

  /** Pieces that let the three values be read back: the path starts with
      `/` (ending the link id), the closing after the id starts with `%`
      (ending the id), and the closing after the count is not a digit. */
  predicate Readable(p: UrlParts) {
    && p.apiPath != [] && p.apiPath[0] == '/'
    && p.idClose != [] && p.idClose[0] == '%'
    && p.countClose != [] && !IsDigit(p.countClose[0])
    && |p.idOpen| >= 3 && |p.idClose| >= 3
  }

  lemma PartsReadable()
    ensures Readable(AsWritten) && Readable(Quoted)
    ensures AsWritten.idOpen[|AsWritten.idOpen| - 3..] == "3A%"
    ensures Quoted.idOpen[|Quoted.idOpen| - 3..] == "%22" && Quoted.idClose[..3] == "%22"
  {
    assert IdOpen[|IdOpen| - 3..] == "3A%";
    assert IdOpenQuoted[|IdOpenQuoted| - 3..] == "%22";
    assert IdClose[..3] == "%22";
  }

  /** The request URL built from `p`. */
  function RequestUrl(p: UrlParts, id: string, count: u32, linkid: string): string
  {
    p.apiPrefix + linkid + p.apiPath + p.idOpen + id + p.idClose + Decimal(count) + p.countClose + p.tail
  }

  /** `make_get_post_url`, as written. */
  function MakeGetPostUrl(id: string, count: u32, linkid: string): string
  {
    RequestUrl(AsWritten, id, count, linkid)
  }

  /** The request URL with the user id quoted, as the query evidently means. */
  function MakeGetPostUrlQuoted(id: string, count: u32, linkid: string): string
  {
    RequestUrl(Quoted, id, count, linkid)
  }

  /** The URL starts with the domain part holding the link id and ends with
      the tail, verbatim. */
  lemma {:induction false} RequestUrlFrame(p: UrlParts, id: string, count: u32, linkid: string)
    ensures var url, head := RequestUrl(p, id, count, linkid), p.apiPrefix + linkid + p.apiPath;
      && |head| + |p.tail| <= |url|
      && url[..|head|] == head
      && url[|url| - |p.tail|..] == p.tail
  {
    var head := p.apiPrefix + linkid + p.apiPath;
    var mid := p.idOpen + id + p.idClose + Decimal(count) + p.countClose;
    var url := RequestUrl(p, id, count, linkid);
    assert url == head + mid + p.tail;
  }

  /** `make_get_post_url` starts with
      `https://twitter.com/i/api/graphql/<linkid>/UserTweets?variables=` and
      ends with the remainder of the query, verbatim. */
  lemma MakeGetPostUrlFrame(id: string, count: u32, linkid: string)
    ensures var url, head := MakeGetPostUrl(id, count, linkid), ApiPrefix + linkid + ApiPath;
      && |head| + |RemainderStr| <= |url|
      && url[..|head|] == head
      && url[|url| - |RemainderStr|..] == RemainderStr
  {
    RequestUrlFrame(AsWritten, id, count, linkid);
  }

  /** The longest prefix of `s` that does not contain `c`. */
  function TakeUntil(s: string, c: char): (r: string)
    ensures |r| <= |s| && s[..|r|] == r && c !in r
    ensures |r| < |s| ==> s[|r|] == c
  {
    if s == [] || s[0] == c then [] else [s[0]] + TakeUntil(s[1..], c)
  }

  lemma {:induction false} TakeUntilStops(a: string, b: string, c: char)
    requires c !in a && b != [] && b[0] == c
    ensures TakeUntil(a + b, c) == a
  {
    if a == [] {
      assert a + b == b;
    } else {
      assert (a + b)[1..] == a[1..] + b;
      TakeUntilStops(a[1..], b, c);
    }
  }

  /** The longest prefix of `s` made of decimal digits. */
  function DigitPrefix(s: string): (r: string)
    ensures |r| <= |s| && s[..|r|] == r && AllDigits(r)
  {
    if s == [] || !IsDigit(s[0]) then [] else [s[0]] + DigitPrefix(s[1..])
  }

  lemma {:induction false} DigitPrefixStops(a: string, b: string)
    requires AllDigits(a) && b != [] && !IsDigit(b[0])
    ensures DigitPrefix(a + b) == a
  {
    if a == [] {
      assert a + b == b;
    } else {
      assert (a + b)[1..] == a[1..] + b;
      DigitPrefixStops(a[1..], b);
    }
  }

  /** Reads the count out of what follows the user id: the closing, the
      count's digits, then the rest verbatim. */
  function ParseCount(p: UrlParts, afterId: string): Option<nat>
  {
    if |afterId| < |p.idClose| || afterId[..|p.idClose|] != p.idClose then None
    else
      var afterClose := afterId[|p.idClose|..];
      var digits := DigitPrefix(afterClose);
      if digits == [] || afterClose[|digits|..] != p.countClose + p.tail then None
      else Some(ParseDecimal(digits))
  }

  /** Reads the user id and the count out of the query, from just after the
      link id: the path and the opening, then the id up to the next `%`. */
  function ParseQuery(p: UrlParts, rest: string): Option<(string, nat)>
  {
    var marker := p.apiPath + p.idOpen;
    if |rest| < |marker| || rest[..|marker|] != marker then None
    else
      var afterOpen := rest[|marker|..];
      var id := TakeUntil(afterOpen, '%');
      match ParseCount(p, afterOpen[|id|..])
      case None => None
      case Some(count) => Some((id, count))
  }

  /** Reads the user id, the count and the link id back out of a request URL
      built from `p`. */
  function ParseRequestUrl(p: UrlParts, url: string): Option<(string, nat, string)>
  {
    if |url| < |p.apiPrefix| || url[..|p.apiPrefix|] != p.apiPrefix then None
    else
      var afterPrefix := url[|p.apiPrefix|..];
      var linkid := TakeUntil(afterPrefix, '/');
      match ParseQuery(p, afterPrefix[|linkid|..])
      case None => None
      case Some((id, count)) => Some((id, count, linkid))
  }

  lemma ParseCountRoundTrip(p: UrlParts, count: u32)
    requires Readable(p)
    ensures ParseCount(p, p.idClose + Decimal(count) + p.countClose + p.tail) == Some(count as nat)
  {
    var afterClose := Decimal(count) + (p.countClose + p.tail);
    assert p.idClose + Decimal(count) + p.countClose + p.tail == p.idClose + afterClose;
    assert (p.idClose + afterClose)[|p.idClose|..] == afterClose;
    DigitPrefixStops(Decimal(count), p.countClose + p.tail);
    assert afterClose[|Decimal(count)|..] == p.countClose + p.tail;
    DecimalRoundTrip(count);
  }

  lemma ParseQueryRoundTrip(p: UrlParts, id: string, count: u32)
    requires Readable(p) && '%' !in id
    ensures ParseQuery(p, p.apiPath + p.idOpen + id + p.idClose + Decimal(count) + p.countClose + p.tail)
            == Some((id, count as nat))
  {
    var afterId := p.idClose + Decimal(count) + p.countClose + p.tail;
    var rest := (p.apiPath + p.idOpen) + (id + afterId);
    assert p.apiPath + p.idOpen + id + p.idClose + Decimal(count) + p.countClose + p.tail == rest;
    assert rest[|p.apiPath + p.idOpen|..] == id + afterId;
    TakeUntilStops(id, afterId, '%');
    assert (id + afterId)[|id|..] == afterId;
    ParseCountRoundTrip(p, count);
  }

  /** The request URL determines its user id, count and link id: parsing it
      back gives them, for a link id without `/` and a user id without `%`. */
  lemma RequestUrlRoundTrip(p: UrlParts, id: string, count: u32, linkid: string)
    requires Readable(p) && '/' !in linkid && '%' !in id
    ensures ParseRequestUrl(p, RequestUrl(p, id, count, linkid)) == Some((id, count as nat, linkid))
  {
    var rest := p.apiPath + p.idOpen + id + p.idClose + Decimal(count) + p.countClose + p.tail;
    assert RequestUrl(p, id, count, linkid) == p.apiPrefix + (linkid + rest);
    assert (p.apiPrefix + (linkid + rest))[|p.apiPrefix|..] == linkid + rest;
    TakeUntilStops(linkid, rest, '/');
    assert (linkid + rest)[|linkid|..] == rest;
    ParseQueryRoundTrip(p, id, count);
  }

  /** `make_get_post_url` parses back to its arguments. */
  lemma MakeGetPostUrlRoundTrip(id: string, count: u32, linkid: string)
    requires '/' !in linkid && '%' !in id
    ensures ParseRequestUrl(AsWritten, MakeGetPostUrl(id, count, linkid)) == Some((id, count as nat, linkid))
  {
    PartsReadable();
    RequestUrlRoundTrip(AsWritten, id, count, linkid);
  }

  /** Where the user id starts in a request URL. */
  function IdStart(p: UrlParts, linkid: string): nat
  {
    |p.apiPrefix| + |linkid| + |p.apiPath| + |p.idOpen|
  }

  /** The three characters before the user id end the opening, and the three
      after it start the closing. */
  lemma {:induction false} RequestUrlIdAt(p: UrlParts, id: string, count: u32, linkid: string)
    requires |p.idOpen| >= 3 && |p.idClose| >= 3
    ensures var url, at := RequestUrl(p, id, count, linkid), IdStart(p, linkid);
      && at + |id| + 3 <= |url|
      && url[at - 3..at] == p.idOpen[|p.idOpen| - 3..]
      && url[at..at + |id|] == id
      && url[at + |id|..at + |id| + 3] == p.idClose[..3]
  {
    var head := p.apiPrefix + linkid + p.apiPath + p.idOpen;
    var rest := id + p.idClose + (Decimal(count) + p.countClose + p.tail);
    var url := RequestUrl(p, id, count, linkid);
    assert url == head + rest;
    assert url[|head| - 3..|head|] == head[|head| - 3..];
    assert head[|head| - 3..] == p.idOpen[|p.idOpen| - 3..];
    assert url[|head|..|head| + |id|] == rest[..|id|] == id;
    assert url[|head| + |id|..|head| + |id| + 3] == rest[|id|..|id| + 3] == p.idClose[..3];
  }

  /** When the opening ends in a lone `%`, that `%` and the first two
      characters of the user id read as one escape sequence. */
  lemma {:induction false} LoneEscapeTakesId(p: UrlParts, id: string, count: u32, linkid: string)
    requires |p.idOpen| >= 3 && |p.idClose| >= 3 && p.idOpen[|p.idOpen| - 1] == '%' && |id| >= 2
    ensures var url, at := RequestUrl(p, id, count, linkid), IdStart(p, linkid) - 1;
      at + 3 <= |url| && url[at..at + 3] == "%" + id[..2]
  {
    RequestUrlIdAt(p, id, count, linkid);
    var url := RequestUrl(p, id, count, linkid);
    var at := IdStart(p, linkid);
    assert url[at - 1] == url[at - 3..at][2] == p.idOpen[|p.idOpen| - 3..][2];
    assert url[at..at + 2] == url[at..at + |id|][..2] == id[..2];
    assert url[at - 1..at + 2] == [url[at - 1]] + url[at..at + 2];
  }

  /** As written, the encoded colon before the user id is followed by a lone
      `%`, which fuses with the first two characters of the id into one
      escape sequence where the encoded quote `%22` belongs. */
  lemma MakeGetPostUrlUnquotedId(id: string, count: u32, linkid: string)
    requires |id| >= 2 && id[..2] != "22"
    ensures var url, at := MakeGetPostUrl(id, count, linkid), IdStart(AsWritten, linkid) - 1;
      at + 3 <= |url| && url[at..at + 3] == "%" + id[..2] && url[at..at + 3] != "%22"
  {
    PartsReadable();
    LoneEscapeTakesId(AsWritten, id, count, linkid);
    assert ("%" + id[..2])[1..] == id[..2];
    assert "%22"[1..] == "22";
  }

  /** With the quote restored, the user id sits between two encoded quotes
      and the URL still parses back to its arguments. */
  lemma MakeGetPostUrlQuotedId(id: string, count: u32, linkid: string)
    requires '/' !in linkid && '%' !in id
    ensures var url, at := MakeGetPostUrlQuoted(id, count, linkid), IdStart(Quoted, linkid);
      && at + |id| + 3 <= |url|
      && url[at - 3..at] == "%22" && url[at..at + |id|] == id && url[at + |id|..at + |id| + 3] == "%22"
    ensures ParseRequestUrl(Quoted, MakeGetPostUrlQuoted(id, count, linkid)) == Some((id, count as nat, linkid))
  {
    PartsReadable();
    RequestUrlIdAt(Quoted, id, count, linkid);
    RequestUrlRoundTrip(Quoted, id, count, linkid);
  }

  /** A calendar date, as supplied by the clock. */
  datatype Date = Date(year: int, month: int, day: int)

  /** The dates that `%Y-%m-%d` renders as four, two and two digits. */
  predicate ValidDate(d: Date) {
    0 <= d.year <= 9999 && 1 <= d.month <= 12 && 1 <= d.day <= 31
  }

  /** A number below 100 as two zero-padded digits. */
  function Pad2(n: nat): (r: string)
    requires n < 100
    ensures |r| == 2 && AllDigits(r) && ParseDecimal(r) == n
  {
    var r := [DigitChar(n / 10), DigitChar(n % 10)];
    assert r[..1] == [DigitChar(n / 10)] && r[..1][..0] == [];
    assert ParseDecimal(r[..1]) == n / 10;
    assert ParseDecimal(r) == 10 * (n / 10) + n % 10;
    r
  }

  lemma {:induction false} ParseDecimalAppend2(a: string, b: string)
    requires AllDigits(a) && AllDigits(b) && |b| == 2
    ensures AllDigits(a + b) && ParseDecimal(a + b) == 100 * ParseDecimal(a) + ParseDecimal(b)
  {
    var s := a + b;
    assert s[..|s| - 1] == a + b[..1];
    var t := a + b[..1];
    assert t[..|t| - 1] == a;
    assert b[..1][..0] == [];
    assert ParseDecimal(b) == 10 * ParseDecimal(b[..1]) + DigitValue(b[1]);
  }

  /** `%Y` for a year in 0..9999: four zero-padded digits. */
  function Pad4(n: nat): (r: string)
    requires n < 10000
    ensures |r| == 4 && AllDigits(r) && ParseDecimal(r) == n
  {
    ParseDecimalAppend2(Pad2(n / 100), Pad2(n % 100));
    Pad2(n / 100) + Pad2(n % 100)
  }

  const PostsSuffix: string := "-posts"

  /** `today_date_coll_name` for the given date: `YYYY-MM-DD-posts`. */
  function TodayDateCollName(d: Date): (r: string)
    requires ValidDate(d)
    ensures |r| == 16 && r[4] == '-' && r[7] == '-' && r[10..] == PostsSuffix
  {
    Pad4(d.year) + "-" + Pad2(d.month) + "-" + Pad2(d.day) + PostsSuffix
  }

  /** Reads a date back out of a collection name. */
  function ParseCollName(s: string): Option<Date>
  {
    if |s| == 16 && s[4] == '-' && s[7] == '-' && s[10..] == PostsSuffix
       && AllDigits(s[..4]) && AllDigits(s[5..7]) && AllDigits(s[8..10])
    then Some(Date(ParseDecimal(s[..4]), ParseDecimal(s[5..7]), ParseDecimal(s[8..10])))
    else None
  }

  /** The collection name determines the date it was made from. */
  lemma CollNameRoundTrip(d: Date)
    requires ValidDate(d)
    ensures ParseCollName(TodayDateCollName(d)) == Some(d)
  {
    var s := TodayDateCollName(d);
    assert s[..4] == Pad4(d.year);
    assert s[5..7] == Pad2(d.month);
    assert s[8..10] == Pad2(d.day);
  }

  /** `rand_num_wait`: `gen_range(120..255)` excludes its upper bound. The
      generator is modelled as an unconstrained choice in that range. */
  method RandNumWait() returns (w: u8)
    ensures 120 <= w <= 254
  {
    w :| 120 <= w < 255;
  }
}
