/** The pure pieces of post recording: which matches or links are read for a
    record mode, how a match is copied out of the JSON text through its
    `split("")` pieces, how the post id and the user name are cut out of the
    copies, the profile tab to open, and the documents that are stored.
    Regular-expression matches and WebDriver lookups are inputs: a match is
    its span, a link is its `href` attribute (absent or present). A span's
    byte offsets are used as indices of the `split("")` pieces, one per
    character, which is the source's behaviour for ASCII text; the JSON is
    assumed ASCII up to the end of every match. */
module RecordPosts {
  import opened Base
  import opened Text

  datatype RecordMode = Last | LastFive | LastTen | AllFound

  datatype TweetType = Reply | Post | Media | Likes

  /** The span `[start, end)` of a regular-expression match, in bytes, here
      also in characters (ASCII text). */
  datatype Span = Span(start: nat, end: nat)

  // ---------------------------------------------------------------------
  // Index selection

  /** `(0..n).collect()`. */
  function Range(n: nat): (r: seq<nat>)
    ensures |r| == n && forall i :: 0 <= i < n ==> r[i] == i
  {
    if n == 0 then [] else Range(n - 1) + [n - 1]
  }

  /** The match indices `PostRecordRequest::get_posts` reads for a record
      mode. For `AllFound` the match count goes through `as u32`, which keeps
      its low 32 bits. */
  function Nth(mode: RecordMode, matchCount: nat): seq<nat>
  {
    match mode
    case Last => [0]
    case LastFive => Range(5)
    case LastTen => Range(10)
    case AllFound => Range(matchCount % U32_LIMIT)
  }

  /** The number of matches a mode reads. */
  function MatchesNeeded(mode: RecordMode): nat
  {
    match mode
    case Last => 1
    case LastFive => 5
    case LastTen => 10
    case AllFound => 0
  }

  /** How many matches `get_posts` reads: `Nth` counts up from 0 to it. */
  function ReadCount(mode: RecordMode, matchCount: nat): nat
  {
    if mode == AllFound then matchCount % U32_LIMIT else MatchesNeeded(mode)
  }

  lemma NthIsRange(mode: RecordMode, matchCount: nat)
    ensures Nth(mode, matchCount) == Range(ReadCount(mode, matchCount))
  {
    if mode == Last {
      assert Range(1) == Range(0) + [0];
    }
  }

  /** Every index `get_posts` reads is a match (so `matches[n]` does not
      panic) exactly when there are as many matches as the mode needs. */
  lemma NthInBounds(mode: RecordMode, matchCount: nat)
    ensures (forall k :: 0 <= k < |Nth(mode, matchCount)| ==> Nth(mode, matchCount)[k] < matchCount)
            <==> MatchesNeeded(mode) <= matchCount
  {
    var nth := Nth(mode, matchCount);
    if MatchesNeeded(mode) > matchCount {
      assert nth[MatchesNeeded(mode) - 1] == MatchesNeeded(mode) - 1;
    }
  }

  /** Below 2^32 matches, `AllFound` reads every match once, in order. */
  lemma NthAllFound(matchCount: nat)
    requires matchCount < U32_LIMIT
    ensures Nth(AllFound, matchCount) == Range(matchCount)
  {
  }

  // ---------------------------------------------------------------------
  // Copying through `split("")`

  /** One piece per character. */
  function Chars(s: string): (r: seq<string>)
    ensures |r| == |s|
  {
    if s == [] then [] else [[s[0]]] + Chars(s[1..])
  }

  lemma {:induction false} CharsPieces(s: string)
    ensures forall j :: 0 <= j < |s| ==> Chars(s)[j] == [s[j]]
  {
    if s != [] {
      CharsPieces(s[1..]);
    }
  }

  /** `s.split("")`: an empty piece, one piece per character, an empty piece. */
  function SplitEmpty(s: string): (r: seq<string>)
    ensures |r| == |s| + 2
  {
    [[]] + Chars(s) + [[]]
  }

  lemma SplitEmptyPieces(s: string)
    ensures SplitEmpty(s)[0] == [] && SplitEmpty(s)[|s| + 1] == []
    ensures forall j :: 0 <= j < |s| ==> SplitEmpty(s)[j + 1] == [s[j]]
  {
    CharsPieces(s);
  }

  /** One position to the left, stopping at 0. */
  function Before(i: nat): nat
  {
    if i == 0 then 0 else i - 1
  }

  /** Concatenating pieces `a..b` of a list that starts with an empty piece
      and continues with the characters of `s`, one per piece. */
  lemma {:induction false} ConcatShifted(p: seq<string>, s: string, a: nat, b: nat)
    requires |p| == |s| + 2 && p[0] == []
    requires forall j :: 0 <= j < |s| ==> p[j + 1] == [s[j]]
    requires a <= b <= |s| + 1
    ensures ConcatRange(p, a, b) == s[Before(a)..Before(b)]
    decreases b - a
  {
    if a < b {
      ConcatShifted(p, s, a, b - 1);
      if b >= 2 {
        assert p[b - 1] == [s[b - 2]];
        assert s[Before(a)..b - 1] == s[Before(a)..b - 2] + [s[b - 2]];
      }
    }
  }

  /** Pushing the pieces `a..b` of `s.split("")` copies `s[a - 1..b - 1]`:
      the leading empty piece shifts every index one to the left. */
  lemma CopyThroughSplit(s: string, a: nat, b: nat)
    requires a <= b <= |s| + 1
    ensures ConcatRange(SplitEmpty(s), a, b) == s[Before(a)..Before(b)]
  {
    SplitEmptyPieces(s);
    ConcatShifted(SplitEmpty(s), s, a, b);
  }

  /** Copying the pieces one further on gives back the span itself. */
  lemma SplitCopyIntended(s: string, a: nat, b: nat)
    requires a <= b <= |s|
    ensures ConcatRange(SplitEmpty(s), a + 1, b + 1) == s[a..b]
  {
    CopyThroughSplit(s, a + 1, b + 1);
  }

  /** `for j in a..b { st.push_str(pieces[j]) }`. */
  method CopyPieces(pieces: seq<string>, a: nat, b: nat) returns (st: string)
    requires a >= b || b <= |pieces|
    ensures st == ConcatRange(pieces, a, b)
  {
    st := [];
    var j := a;
    while j < b
      invariant a >= b ==> j == a
      invariant a < b ==> a <= j <= b
      invariant st == ConcatRange(pieces, a, j)
    {
      st := st + pieces[j];
      j := j + 1;
    }
  }

  // ---------------------------------------------------------------------
  // The leftmost `\d+`

  /** The first digit at or after `i`, or `|s|` when there is none. */
  function FirstDigit(s: string, i: nat): (r: nat)
    requires i <= |s|
    ensures i <= r <= |s|
    decreases |s| - i
  {
    if i == |s| || IsDigit(s[i]) then i else FirstDigit(s, i + 1)
  }

  /** `FirstDigit` is a digit, and nothing between `i` and it is one. */
  lemma {:induction false} FirstDigitIsFirst(s: string, i: nat)
    requires i <= |s|
    ensures var r := FirstDigit(s, i);
            (r < |s| ==> IsDigit(s[r])) && forall j :: i <= j < r ==> !IsDigit(s[j])
    decreases |s| - i
  {
    if !(i == |s| || IsDigit(s[i])) {
      FirstDigitIsFirst(s, i + 1);
    }
  }

  /** The end of the run of digits starting at `i`. */
  function DigitRunEnd(s: string, i: nat): (r: nat)
    requires i <= |s|
    ensures i <= r <= |s|
    decreases |s| - i
  {
    if i == |s| || !IsDigit(s[i]) then i else DigitRunEnd(s, i + 1)
  }

  /** Everything from `i` to `DigitRunEnd` is a digit, and what follows is not. */
  lemma {:induction false} DigitRunEndIsEnd(s: string, i: nat)
    requires i <= |s|
    ensures var r := DigitRunEnd(s, i);
            (r < |s| ==> !IsDigit(s[r])) && forall j :: i <= j < r ==> IsDigit(s[j])
    decreases |s| - i
  {
    if !(i == |s| || !IsDigit(s[i])) {
      DigitRunEndIsEnd(s, i + 1);
    }
  }

  /** The leftmost match of `\d+`: the first digit and every digit after it;
      none when the text holds no digit. */
  function DigitMatch(s: string): (r: Option<Span>)
    ensures r.Some? ==> r.value.start < r.value.end <= |s|
  {
    var first := FirstDigit(s, 0);
    if first == |s| then None
    else
      FirstDigitIsFirst(s, 0);
      DigitRunEndIsEnd(s, first);
      Some(Span(first, DigitRunEnd(s, first)))
  }

  /** The match is the leftmost maximal run of digits: there is one exactly
      when the text holds a digit, no digit comes before it, all of it is
      digits, and the character after it is not a digit. */
  lemma DigitMatchIsLeftmostRun(s: string)
    ensures DigitMatch(s).None? <==> forall j :: 0 <= j < |s| ==> !IsDigit(s[j])
    ensures DigitMatch(s).Some? ==> forall j :: 0 <= j < DigitMatch(s).value.start ==> !IsDigit(s[j])
    ensures DigitMatch(s).Some? ==> forall j :: DigitMatch(s).value.start <= j < DigitMatch(s).value.end ==> IsDigit(s[j])
    ensures DigitMatch(s).Some? && DigitMatch(s).value.end < |s| ==> !IsDigit(s[DigitMatch(s).value.end])
  {
    FirstDigitIsFirst(s, 0);
    var first := FirstDigit(s, 0);
    if first < |s| {
      DigitRunEndIsEnd(s, first);
    }
  }

  /** What `extract_numbers` returns: the leftmost `\d+` (which must exist:
      the source unwraps it), copied through `split("")`, so starting one
      character early and stopping one digit short. */
  function NumbersAsWritten(str: string): string
    requires DigitMatch(str).Some?
  {
    var m := DigitMatch(str).value;
    str[Before(m.start)..m.end - 1]
  }

  /** `extract_numbers`. */
  method ExtractNumbers(str: string) returns (postNum: string)
    requires DigitMatch(str).Some?
    ensures postNum == NumbersAsWritten(str)
  {
    var found := DigitMatch(str).value;
    var strSplit := SplitEmpty(str);
    postNum := CopyPieces(strSplit, found.start, found.end);
    CopyThroughSplit(str, found.start, found.end);
  }

  /** `extract_numbers` copying the match itself. */
  method ExtractNumbersIntended(str: string) returns (postNum: string)
    requires DigitMatch(str).Some?
    ensures var m := DigitMatch(str).value; postNum == str[m.start..m.end]
  {
    var found := DigitMatch(str).value;
    var strSplit := SplitEmpty(str);
    postNum := CopyPieces(strSplit, found.start + 1, found.end + 1);
    SplitCopyIntended(str, found.start, found.end);
  }

  // ---------------------------------------------------------------------
  // Post ids in the timeline JSON
  //
  // `RE_POST` is a fixed lead text followed by `\d+` and a quote. The
  // definitions below take the lead text as a parameter `pre`; `PostPrefix`
  // is the one `RE_POST` uses.

  /** The text `RE_POST` matches before the digits of the id. */
  const PostPrefix: string := "\"__typename\":\"Tweet\",\"rest_id\":\""

  /** A lead text without digits that ends in a quote. */
  predicate QuotedNoDigits(pre: string)
  {
    |pre| >= 1 && pre[|pre| - 1] == '"' && forall j :: 0 <= j < |pre| ==> !IsDigit(pre[j])
  }

  lemma PostPrefixShape()
    ensures QuotedNoDigits(PostPrefix) && |PostPrefix| == 32
  {
  }

  /** `sp` is a match of `pre\d+"` in `json`: the lead text, one or more
      digits and a closing quote. */
  predicate IsIdMatch(json: string, sp: Span, pre: string)
  {
    sp.start + |pre| + 2 <= sp.end <= |json|
    && json[sp.start..sp.start + |pre|] == pre
    && (forall j :: sp.start + |pre| <= j < sp.end - 1 ==> IsDigit(json[j]))
    && json[sp.end - 1] == '"'
  }

  /** Every span is a match of `pre\d+"`. */
  predicate AllIdMatches(json: string, matches: seq<Span>, pre: string)
  {
    forall k {:trigger IsIdMatch(json, matches[k], pre)} :: 0 <= k < |matches| ==> IsIdMatch(json, matches[k], pre)
  }

  /** The digits of a match: the id of the post it stands for. */
  function MatchedId(json: string, sp: Span, pre: string): string
    requires IsIdMatch(json, sp, pre)
  {
    json[sp.start + |pre|..sp.end - 1]
  }

  /** The id is one or more digits, and the lead text, the id and a quote
      give back the whole match. */
  lemma MatchedIdRoundTrip(json: string, sp: Span, pre: string)
    requires IsIdMatch(json, sp, pre)
    ensures var id := MatchedId(json, sp, pre); |id| >= 1 && AllDigits(id)
    ensures pre + MatchedId(json, sp, pre) + "\"" == json[sp.start..sp.end]
  {
    var id := MatchedId(json, sp, pre);
    assert forall j :: 0 <= j < |id| ==> id[j] == json[sp.start + |pre| + j];
    assert json[sp.start..sp.end] == json[sp.start..sp.start + |pre|] + id + [json[sp.end - 1]];
  }

  /** What `get_posts` returns for a match: the match is copied one character
      early and one short, then `extract_numbers` shifts again. When the
      character before the match is a digit, the leftmost digit run is that
      character and the result is empty; otherwise it is a quote followed by
      the id without its last digit. */
  function IdAsWritten(json: string, sp: Span, pre: string): string
    requires IsIdMatch(json, sp, pre)
  {
    var id := MatchedId(json, sp, pre);
    if sp.start >= 1 && IsDigit(json[sp.start - 1]) then [] else "\"" + id[..|id| - 1]
  }

  /** The copy of a match, as `get_posts` makes it, seen as its parts. */
  lemma CopyParts(json: string, sp: Span, pre: string)
    requires IsIdMatch(json, sp, pre)
    ensures json[Before(sp.start)..sp.end - 1]
            == json[Before(sp.start)..sp.start] + pre + MatchedId(json, sp, pre)
  {
    var id := MatchedId(json, sp, pre);
    MatchedIdRoundTrip(json, sp, pre);
    assert json[sp.start..sp.end - 1] == pre + id;
    assert json[Before(sp.start)..sp.end - 1] == json[Before(sp.start)..sp.start] + json[sp.start..sp.end - 1];
  }

  /** After a non-digit lead of at most one character and a digit-free
      prefix, the leftmost digit run is the whole id. */
  lemma DigitMatchAfterPrefix(lead: string, pre: string, id: string)
    requires |lead| <= 1 && (lead == [] || !IsDigit(lead[0]))
    requires QuotedNoDigits(pre) && |id| >= 1 && AllDigits(id)
    ensures var st := lead + pre + id; DigitMatch(st) == Some(Span(|lead| + |pre|, |st|))
  {
    var st := lead + pre + id;
    var off := |lead| + |pre|;
    forall j | 0 <= j < off ensures !IsDigit(st[j]) {
      if j < |lead| {
        assert st[j] == lead[j];
      } else {
        assert st[j] == pre[j - |lead|];
      }
    }
    forall j | off <= j < |st| ensures IsDigit(st[j]) {
      assert st[j] == id[j - off];
    }
    var m := DigitMatch(st);
    DigitMatchIsLeftmostRun(st);
    assert IsDigit(st[off]);
    assert m.Some?;
    assert IsDigit(st[m.value.start]);
  }

  /** A leading digit followed by a non-digit is the leftmost digit run. */
  lemma DigitMatchDigitLead(c: char, rest: string)
    requires IsDigit(c) && |rest| >= 1 && !IsDigit(rest[0])
    ensures DigitMatch([c] + rest) == Some(Span(0, 1))
  {
    var st := [c] + rest;
    DigitMatchIsLeftmostRun(st);
    assert st[0] == c && st[1] == rest[0];
  }

  /** `extract_numbers` on a digit, a digit-free prefix and an id: the run
      found is the leading digit, and the copy of it is empty. */
  lemma NumbersAfterDigit(c: char, pre: string, id: string)
    requires IsDigit(c) && QuotedNoDigits(pre)
    ensures DigitMatch([c] + pre + id).Some?
    ensures NumbersAsWritten([c] + pre + id) == []
  {
    assert [c] + pre + id == [c] + (pre + id);
    DigitMatchDigitLead(c, pre + id);
  }

  /** `extract_numbers` on a non-digit lead of at most one character, a
      digit-free prefix ending in a quote and an id: a quote and the id
      without its last digit. */
  lemma NumbersAfterPrefix(lead: string, pre: string, id: string)
    requires |lead| <= 1 && (lead == [] || !IsDigit(lead[0]))
    requires QuotedNoDigits(pre) && |id| >= 1 && AllDigits(id)
    ensures DigitMatch(lead + pre + id).Some?
    ensures NumbersAsWritten(lead + pre + id) == "\"" + id[..|id| - 1]
  {
    var st := lead + pre + id;
    DigitMatchAfterPrefix(lead, pre, id);
    var k := |lead| + |pre| - 1;
    assert st[k] == pre[|pre| - 1];
    assert st[k + 1..] == id;
    assert st[k..|st| - 1] == [st[k]] + st[k + 1..][..|id| - 1];
  }

  /** The id `get_posts` computes from one match is the shifted one. */
  lemma IdShift(json: string, sp: Span, pre: string)
    requires IsIdMatch(json, sp, pre) && QuotedNoDigits(pre)
    ensures DigitMatch(json[Before(sp.start)..sp.end - 1]).Some?
    ensures NumbersAsWritten(json[Before(sp.start)..sp.end - 1]) == IdAsWritten(json, sp, pre)
  {
    var lead := json[Before(sp.start)..sp.start];
    CopyParts(json, sp, pre);
    MatchedIdRoundTrip(json, sp, pre);
    if sp.start >= 1 && IsDigit(json[sp.start - 1]) {
      assert lead == [json[sp.start - 1]];
      NumbersAfterDigit(json[sp.start - 1], pre, MatchedId(json, sp, pre));
    } else {
      assert lead != [] ==> lead[0] == json[sp.start - 1];
      NumbersAfterPrefix(lead, pre, MatchedId(json, sp, pre));
    }
  }

  /** The value `get_posts` returns is never the id. */
  lemma IdAsWrittenIsNotId(json: string, sp: Span, pre: string)
    requires IsIdMatch(json, sp, pre)
    ensures IdAsWritten(json, sp, pre) != MatchedId(json, sp, pre)
  {
    var id := MatchedId(json, sp, pre);
    MatchedIdRoundTrip(json, sp, pre);
    if !(sp.start >= 1 && IsDigit(json[sp.start - 1])) {
      assert IdAsWritten(json, sp, pre)[0] == '"';
      assert IsDigit(id[0]);
    }
  }

  /** A timeline holding only the post `123`: `get_posts` reports `"12`. */
  lemma PostIdAsWrittenExample()
    ensures var json := PostPrefix + "123\"";
            IsIdMatch(json, Span(0, 36), PostPrefix) && IdAsWritten(json, Span(0, 36), PostPrefix) == "\"12"
  {
    var json := PostPrefix + "123\"";
    assert json[0..32] == PostPrefix;
    assert MatchedId(json, Span(0, 36), PostPrefix) == "123";
  }

  /** In the match itself, the leftmost digit run is the id. */
  lemma IdInMatch(json: string, sp: Span, pre: string)
    requires IsIdMatch(json, sp, pre) && QuotedNoDigits(pre)
    ensures var st := json[sp.start..sp.end];
            DigitMatch(st).Some? && st[DigitMatch(st).value.start..DigitMatch(st).value.end] == MatchedId(json, sp, pre)
  {
    var st := json[sp.start..sp.end];
    var id := MatchedId(json, sp, pre);
    var n := |pre|;
    MatchedIdRoundTrip(json, sp, pre);
    assert st == pre + id + "\"";
    assert st[n] == id[0];
    var m := DigitMatch(st);
    DigitMatchIsLeftmostRun(st);
    forall j | 0 <= j < n ensures !IsDigit(st[j]) {
      assert st[j] == pre[j];
    }
    assert m.value.start == n;
    forall j | n <= j < |st| - 1 ensures IsDigit(st[j]) {
      assert st[j] == id[j - n];
    }
    assert st[|st| - 1] == '"';
    assert m.value.end == |st| - 1;
    assert st[n..|st| - 1] == id;
  }

  /** One step of `get_posts`: the copy of a match through the pieces of
      `json.split("")`, then `extract_numbers`. */
  method RequestPostId(jsonChars: seq<string>, json: string, pre: string, mat: Span) returns (st: string)
    requires jsonChars == SplitEmpty(json) && IsIdMatch(json, mat, pre) && QuotedNoDigits(pre)
    ensures st == IdAsWritten(json, mat, pre)
  {
    st := CopyPieces(jsonChars, mat.start, mat.end);
    CopyThroughSplit(json, mat.start, mat.end);
    IdShift(json, mat, pre);
    st := ExtractNumbers(st);
  }

  /** One step of `get_posts` with both copies taken at the match itself. */
  method RequestPostIdIntended(jsonChars: seq<string>, json: string, pre: string, mat: Span) returns (st: string)
    requires jsonChars == SplitEmpty(json) && IsIdMatch(json, mat, pre) && QuotedNoDigits(pre)
    ensures st == MatchedId(json, mat, pre)
  {
    st := CopyPieces(jsonChars, mat.start + 1, mat.end + 1);
    SplitCopyIntended(json, mat.start, mat.end);
    IdInMatch(json, mat, pre);
    st := ExtractNumbersIntended(st);
  }

  /** What `get_posts` returns for the first `n` matches. */
  function IdsAsWritten(json: string, matches: seq<Span>, pre: string, n: nat): (r: seq<string>)
    requires n <= |matches| && AllIdMatches(json, matches, pre)
    ensures |r| == n
  {
    if n == 0 then [] else IdsAsWritten(json, matches, pre, n - 1) + [IdAsWritten(json, matches[n - 1], pre)]
  }

  /** The ids of the first `n` matches. */
  function MatchedIds(json: string, matches: seq<Span>, pre: string, n: nat): (r: seq<string>)
    requires n <= |matches| && AllIdMatches(json, matches, pre)
    ensures |r| == n
  {
    if n == 0 then [] else MatchedIds(json, matches, pre, n - 1) + [MatchedId(json, matches[n - 1], pre)]
  }

  /** Entry `k` of what `get_posts` returns comes from match `k`. */
  lemma {:induction false} IdsAsWrittenAt(json: string, matches: seq<Span>, pre: string, n: nat)
    requires n <= |matches| && AllIdMatches(json, matches, pre)
    ensures forall k :: 0 <= k < n ==> IdsAsWritten(json, matches, pre, n)[k] == IdAsWritten(json, matches[k], pre)
  {
    if n > 0 {
      IdsAsWrittenAt(json, matches, pre, n - 1);
    }
  }

  /** Entry `k` of the ids is the id of match `k`. */
  lemma {:induction false} MatchedIdsAt(json: string, matches: seq<Span>, pre: string, n: nat)
    requires n <= |matches| && AllIdMatches(json, matches, pre)
    ensures forall k :: 0 <= k < n ==> MatchedIds(json, matches, pre, n)[k] == MatchedId(json, matches[k], pre)
  {
    if n > 0 {
      MatchedIdsAt(json, matches, pre, n - 1);
    }
  }

  /** No entry `get_posts` returns is the id of the post it was read from. */
  lemma IdsAsWrittenAreNotIds(json: string, matches: seq<Span>, pre: string, n: nat)
    requires n <= |matches| && AllIdMatches(json, matches, pre)
    ensures forall k :: 0 <= k < n ==> IdsAsWritten(json, matches, pre, n)[k] != MatchedIds(json, matches, pre, n)[k]
  {
    IdsAsWrittenAt(json, matches, pre, n);
    MatchedIdsAt(json, matches, pre, n);
    forall k | 0 <= k < n
      ensures IdsAsWritten(json, matches, pre, n)[k] != MatchedIds(json, matches, pre, n)[k]
    {
      IdAsWrittenIsNotId(json, matches[k], pre);
    }
  }

  /** `PostRecordRequest::get_posts` over the matches of `pre\d+"`: for each
      index of `Nth`, copies the match through `split("")` and runs
      `extract_numbers` on the copy. The source indexes `matches[n]`
      unchecked, so the matches must suffice. */
  method GetIds(json: string, matches: seq<Span>, mode: RecordMode, pre: string) returns (rets: seq<string>)
    requires QuotedNoDigits(pre) && AllIdMatches(json, matches, pre)
    requires MatchesNeeded(mode) <= |matches|
    ensures ReadCount(mode, |matches|) <= |matches|
    ensures rets == IdsAsWritten(json, matches, pre, ReadCount(mode, |matches|))
  {
    var jsonChars := SplitEmpty(json);
    var nth := Nth(mode, |matches|);
    NthIsRange(mode, |matches|);
    rets := [];
    var i := 0;
    while i < |nth|
      invariant i <= |nth|
      invariant rets == IdsAsWritten(json, matches, pre, i)
    {
      var st := RequestPostId(jsonChars, json, pre, matches[nth[i]]);
      rets := rets + [st];
      i := i + 1;
    }
  }

  /** `get_posts` with both copies taken at the match itself. */
  method GetIdsIntended(json: string, matches: seq<Span>, mode: RecordMode, pre: string) returns (rets: seq<string>)
    requires QuotedNoDigits(pre) && AllIdMatches(json, matches, pre)
    requires MatchesNeeded(mode) <= |matches|
    ensures ReadCount(mode, |matches|) <= |matches|
    ensures rets == MatchedIds(json, matches, pre, ReadCount(mode, |matches|))
  {
    var jsonChars := SplitEmpty(json);
    var nth := Nth(mode, |matches|);
    NthIsRange(mode, |matches|);
    rets := [];
    var i := 0;
    while i < |nth|
      invariant i <= |nth|
      invariant rets == MatchedIds(json, matches, pre, i)
    {
      var st := RequestPostIdIntended(jsonChars, json, pre, matches[nth[i]]);
      rets := rets + [st];
      i := i + 1;
    }
  }

  /** `PostRecordRequest::get_posts` on the matches of `RE_POST`. */
  method GetPosts(json: string, matches: seq<Span>, mode: RecordMode) returns (rets: seq<string>)
    requires AllIdMatches(json, matches, PostPrefix)
    requires MatchesNeeded(mode) <= |matches|
    ensures ReadCount(mode, |matches|) <= |matches|
    ensures rets == IdsAsWritten(json, matches, PostPrefix, ReadCount(mode, |matches|))
  {
    PostPrefixShape();
    rets := GetIds(json, matches, mode, PostPrefix);
  }

  // ---------------------------------------------------------------------
  // The user name in the timeline JSON
  //
  // `RE_USER_NAME` is a quoted key, a colon, and a quoted name made of
  // `[A-Za-z0-9_]`. The lemmas take the key as a parameter `key`;
  // `ScreenNameKey` is the one the source uses.

  /** The key `RE_USER_NAME` looks for, and that `extract_user_name` removes. */
  const ScreenNameKey: string := "\"screen_name\""

  predicate IsNameChar(c: char)
  {
    ('A' <= c <= 'Z') || ('a' <= c <= 'z') || ('0' <= c <= '9') || c == '_'
  }

  /** A key in quotes with no quote inside. */
  predicate QuotedKey(key: string)
  {
    |key| >= 3 && key[0] == '"' && key[|key| - 1] == '"'
    && forall j :: 0 < j < |key| - 1 ==> key[j] != '"'
  }

  lemma ScreenNameKeyShape()
    ensures QuotedKey(ScreenNameKey) && ':' !in ScreenNameKey
  {
  }

  /** `sp` is a match of `key:"([A-Za-z0-9_]+)"` in `json`. */
  predicate IsNameMatch(json: string, sp: Span, key: string)
  {
    sp.start + |key| + 4 <= sp.end <= |json|
    && json[sp.start..sp.start + |key|] == key
    && json[sp.start + |key|] == ':' && json[sp.start + |key| + 1] == '"'
    && (forall j :: sp.start + |key| + 2 <= j < sp.end - 1 ==> IsNameChar(json[j]))
    && json[sp.end - 1] == '"'
  }

  /** The capture group of the match: the user name. */
  function MatchedName(json: string, sp: Span, key: string): (name: string)
    requires IsNameMatch(json, sp, key)
    ensures |name| >= 1 && forall j :: 0 <= j < |name| ==> IsNameChar(name[j])
  {
    json[sp.start + |key| + 2..sp.end - 1]
  }

  /** The match is the key, a colon, and the name in quotes. */
  lemma NameMatchParts(json: string, sp: Span, key: string)
    requires IsNameMatch(json, sp, key)
    ensures json[sp.start..sp.end] == key + ":\"" + MatchedName(json, sp, key) + "\""
  {
    var name := MatchedName(json, sp, key);
    var k := sp.start + |key|;
    assert json[sp.start..sp.end] == json[sp.start..k] + [json[k], json[k + 1]] + name + [json[sp.end - 1]];
  }

  /** What `extract_user_name` returns: the match is copied through
      `split("")`, so one character early and one short; the key goes, and
      then every quote. What is left is the character before the match
      (unless it is a quote), a colon, and the name. */
  function NameAsWritten(json: string, sp: Span, key: string): string
    requires IsNameMatch(json, sp, key)
  {
    (if sp.start >= 1 && json[sp.start - 1] != '"' then [json[sp.start - 1]] else [])
    + ":" + MatchedName(json, sp, key)
  }

  /** A pattern one of whose characters never occurs in `s` does not occur in `s`. */
  lemma AbsentByChar(s: string, pat: string, i: nat)
    requires i < |pat| && pat[i] !in s
    ensures forall p: nat :: !OccursAt(s, pat, p)
  {
    forall p: nat ensures !OccursAt(s, pat, p) {
      if p + |pat| <= |s| {
        assert s[p..p + |pat|][i] == s[p + i];
      }
    }
  }

  /** A quoted key does not occur in a colon, a quote and a name. */
  lemma KeyAbsentFromTail(key: string, name: string)
    requires QuotedKey(key) && forall j :: 0 <= j < |name| ==> IsNameChar(name[j])
    ensures forall p: nat :: !OccursAt(":\"" + name, key, p)
  {
    var rest := ":\"" + name;
    forall p: nat ensures !OccursAt(rest, key, p) {
      if p + |key| <= |rest| {
        var q := p + |key| - 1;
        assert rest[p..p + |key|][|key| - 1] == rest[q];
        assert rest[q] == name[q - 2];
      }
    }
  }

  /** Removing a quoted key that follows a lead of at most one character. */
  lemma ReplaceKeyAfterLead(lead: string, key: string, rest: string)
    requires |lead| <= 1 && QuotedKey(key)
    requires forall p: nat :: !OccursAt(rest, key, p)
    ensures ReplaceAll(lead + key + rest, key, "") == lead + rest
  {
    var s := lead + key + rest;
    ReplaceAllAbsent(rest, key, "");
    if lead == [] {
      assert s == key + rest && s[..|key|] == key && s[|key|..] == rest;
    } else {
      assert s[1] == key[0] && s[..|key|][1] != key[1];
      assert s[1..] == key + rest;
      assert s[1..][..|key|] == key && s[1..][|key|..] == rest;
    }
  }

  /** A name holds no quote. */
  lemma NameHasNoQuote(name: string)
    requires forall j :: 0 <= j < |name| ==> IsNameChar(name[j])
    ensures '"' !in name
  {
  }

  /** Removing `c` from a character other than `c`, `c` itself, and a text
      without `c`. */
  lemma RemoveSecond(a: char, c: char, name: string)
    requires a != c && c !in name
    ensures RemoveChar([a, c] + name, c) == [a] + name
  {
    var s := [a, c] + name;
    var t := s[1..];
    assert t[0] == c && t[1..] == name;
    RemoveCharAbsent(name, c);
    assert RemoveChar(t, c) == RemoveChar(name, c);
    assert s[0] == a;
    assert RemoveChar(s, c) == [a] + RemoveChar(t, c);
  }

  /** Removing every quote from a lead, a colon, a quote and a name. */
  lemma DropQuotes(lead: string, name: string)
    requires '"' !in name
    ensures ReplaceAll(lead + (":\"" + name), "\"", "") == RemoveChar(lead, '"') + ":" + name
  {
    ReplaceCharIsRemove(lead + (":\"" + name), '"');
    RemoveCharAppend(lead, ":\"" + name, '"');
    assert ":\"" + name == [':', '"'] + name;
    RemoveSecond(':', '"', name);
  }

  /** A lead of at most one character loses it when it is a quote. */
  lemma DropQuoteLead(lead: string)
    requires |lead| <= 1
    ensures RemoveChar(lead, '"') == if lead != [] && lead[0] != '"' then lead else []
  {
    if lead != [] {
      assert lead[1..] == [];
    }
  }

  /** The copy of a name match, as `extract_user_name` makes it, seen as its parts. */
  lemma NameCopyParts(json: string, sp: Span, key: string)
    requires IsNameMatch(json, sp, key)
    ensures json[Before(sp.start)..sp.end - 1]
            == json[Before(sp.start)..sp.start] + key + (":\"" + MatchedName(json, sp, key))
  {
    NameMatchParts(json, sp, key);
    var name := MatchedName(json, sp, key);
    assert json[sp.start..sp.end - 1] == json[sp.start..sp.end][..sp.end - 1 - sp.start];
    assert json[sp.start..sp.end - 1] == key + (":\"" + name);
    assert json[Before(sp.start)..sp.end - 1] == json[Before(sp.start)..sp.start] + json[sp.start..sp.end - 1];
  }

  /** Removing the key from the copy of a name match. */
  lemma NameCopyWithoutKey(json: string, sp: Span, key: string)
    requires IsNameMatch(json, sp, key) && QuotedKey(key)
    ensures ReplaceAll(json[Before(sp.start)..sp.end - 1], key, "")
            == json[Before(sp.start)..sp.start] + (":\"" + MatchedName(json, sp, key))
  {
    var name := MatchedName(json, sp, key);
    NameCopyParts(json, sp, key);
    KeyAbsentFromTail(key, name);
    ReplaceKeyAfterLead(json[Before(sp.start)..sp.start], key, ":\"" + name);
  }

  /** The text `extract_user_name` computes is `NameAsWritten`. */
  lemma NameShift(json: string, sp: Span, key: string)
    requires IsNameMatch(json, sp, key) && QuotedKey(key)
    ensures ReplaceAll(ReplaceAll(json[Before(sp.start)..sp.end - 1], key, ""), "\"", "")
            == NameAsWritten(json, sp, key)
  {
    var lead := json[Before(sp.start)..sp.start];
    var name := MatchedName(json, sp, key);
    NameCopyWithoutKey(json, sp, key);
    NameHasNoQuote(name);
    DropQuotes(lead, name);
    DropQuoteLead(lead);
    if sp.start >= 1 {
      assert lead == [json[sp.start - 1]];
    }
  }

  /** `extract_user_name` never returns the bare name: a colon stays in. */
  lemma NameAsWrittenIsNotName(json: string, sp: Span, key: string)
    requires IsNameMatch(json, sp, key)
    ensures NameAsWritten(json, sp, key) != MatchedName(json, sp, key)
    ensures ':' in NameAsWritten(json, sp, key)
  {
    var name := MatchedName(json, sp, key);
    var r := NameAsWritten(json, sp, key);
    assert |r| > |name|;
    var lead := if sp.start >= 1 && json[sp.start - 1] != '"' then [json[sp.start - 1]] else [];
    assert r[|lead|] == ':';
  }

  /** The user `bob` at the start of a JSON object: `extract_user_name`
      reports `{:bob`. */
  lemma NameAsWrittenExample()
    ensures var json := "{" + ScreenNameKey + ":\"bob\"}";
            IsNameMatch(json, Span(1, 20), ScreenNameKey)
            && NameAsWritten(json, Span(1, 20), ScreenNameKey) == "{:bob"
  {
    var json := "{" + ScreenNameKey + ":\"bob\"}";
    assert json[1..14] == ScreenNameKey;
    assert MatchedName(json, Span(1, 20), ScreenNameKey) == "bob";
  }

  /** `PostRecordRequest::extract_user_name`, given the match of
      `RE_USER_NAME` (which the source unwraps, so it must exist). */
  method ExtractUserName(json: string, mat: Span) returns (found: string)
    requires IsNameMatch(json, mat, ScreenNameKey)
    ensures found == NameAsWritten(json, mat, ScreenNameKey)
    ensures '"' !in found
  {
    var strSplit := SplitEmpty(json);
    found := CopyPieces(strSplit, mat.start, mat.end);
    CopyThroughSplit(json, mat.start, mat.end);
    ScreenNameKeyShape();
    NameShift(json, mat, ScreenNameKey);
    found := ReplaceAll(found, ScreenNameKey, "");
    found := ReplaceAll(found, "\"", "");
  }

  /** Removing a pattern that starts the text and never occurs in the rest. */
  lemma ReplaceLeading(pat: string, rest: string)
    requires |pat| > 0 && forall p: nat :: !OccursAt(rest, pat, p)
    ensures ReplaceAll(pat + rest, pat, "") == rest
  {
    var s := pat + rest;
    assert s[..|pat|] == pat && s[|pat|..] == rest;
    ReplaceAllAbsent(rest, pat, "");
  }

  /** Removing the quotes around a name. */
  lemma DropQuotesAround(name: string)
    requires '"' !in name
    ensures ReplaceAll("\"" + name + "\"", "\"", "") == name
  {
    ReplaceCharIsRemove("\"" + name + "\"", '"');
    RemoveCharAppend("\"" + name, "\"", '"');
    RemoveCharAppend("\"", name, '"');
    RemoveCharAbsent(name, '"');
    assert RemoveChar("\"", '"') == [] + RemoveChar([], '"');
  }

  /** A name in quotes holds no colon. */
  lemma QuotedNameHasNoColon(name: string)
    requires forall j :: 0 <= j < |name| ==> IsNameChar(name[j])
    ensures ':' !in "\"" + name + "\""
  {
    var s := "\"" + name + "\"";
    forall j | 0 <= j < |s| ensures s[j] != ':' {
      if 0 < j < |s| - 1 {
        assert s[j] == name[j - 1];
      }
    }
  }

  /** Removing the key with its colon from the match itself, then the
      quotes, leaves the name. */
  lemma NameIntended(json: string, sp: Span, key: string)
    requires IsNameMatch(json, sp, key) && QuotedKey(key) && ':' !in key
    ensures ReplaceAll(ReplaceAll(json[sp.start..sp.end], key + ":", ""), "\"", "")
            == MatchedName(json, sp, key)
  {
    var name := MatchedName(json, sp, key);
    var field := key + ":";
    var rest := "\"" + name + "\"";
    NameMatchParts(json, sp, key);
    assert json[sp.start..sp.end] == field + rest;
    assert field[|key|] == ':';
    QuotedNameHasNoColon(name);
    AbsentByChar(rest, field, |key|);
    ReplaceLeading(field, rest);
    NameHasNoQuote(name);
    DropQuotesAround(name);
  }

  /** `extract_user_name` copying the match itself and removing the key
      together with its colon: the user name. */
  method ExtractUserNameIntended(json: string, mat: Span) returns (found: string)
    requires IsNameMatch(json, mat, ScreenNameKey)
    ensures found == MatchedName(json, mat, ScreenNameKey)
  {
    var strSplit := SplitEmpty(json);
    found := CopyPieces(strSplit, mat.start + 1, mat.end + 1);
    SplitCopyIntended(json, mat.start, mat.end);
    ScreenNameKeyShape();
    NameIntended(json, mat, ScreenNameKey);
    found := ReplaceAll(found, ScreenNameKey + ":", "");
    found := ReplaceAll(found, "\"", "");
  }

  // ---------------------------------------------------------------------
  // Scraping the profile page (`PostRecordScrape::get_posts`)

  /** The end of the profile tab's path for each kind of tweet. */
  function TabSuffix(t: TweetType): string
  {
    match t
    case Reply => "/with_replies"
    case Post => ""
    case Media => "/media"
    case Likes => "/likes"
  }

  /** The `href` of the tab link `get_posts` clicks. */
  function HrefClickText(userName: string, t: TweetType): string
  {
    "/" + userName + TabSuffix(t)
  }

  /** Different kinds of tweet open different tabs of the same profile. */
  lemma HrefClickTextInjective(userName: string, t1: TweetType, t2: TweetType)
    requires HrefClickText(userName, t1) == HrefClickText(userName, t2)
    ensures t1 == t2
  {
    var n := |userName| + 1;
    assert TabSuffix(t1) == HrefClickText(userName, t1)[n..];
    assert TabSuffix(t2) == HrefClickText(userName, t2)[n..];
    if |TabSuffix(t1)| == 6 && |TabSuffix(t2)| == 6 {
      assert TabSuffix(t1)[1] == TabSuffix(t2)[1];
    }
  }

  /** The user name taken from a profile URL ending in `/name` is `name`,
      and the tab link of the posts is `/name`. */
  lemma ProfileTab(base: string, userName: string)
    requires '/' !in userName
    ensures LastSegment(base + "/" + userName, '/') == userName
    ensures HrefClickText(LastSegment(base + "/" + userName, '/'), Post) == "/" + userName
  {
    LastSegmentAfter(base, '/', userName);
  }

  /** Why scraping panics. */
  datatype ScrapePanic = NotEnoughPosts | IndexOutOfRange

  /** What `get_posts` ends with: the `href`s collected, or a panic. */
  datatype ScrapeOutcome = Scraped(posts: seq<string>) | ScrapePanicked(reason: ScrapePanic)

  /** `n` consecutive indices starting at `p`. */
  function Shifted(n: nat, p: nat): (r: seq<nat>)
    ensures |r| == n && forall i :: 0 <= i < n ==> r[i] == i + p
  {
    if n == 0 then [] else Shifted(n - 1, p) + [n - 1 + p]
  }

  /** The link indices read: past the pinned tweet for the first three
      modes, every link for `AllFound`. */
  function ScrapeIndices(mode: RecordMode, pinned: nat, linkCount: nat): seq<nat>
  {
    if mode == AllFound then Range(linkCount) else Shifted(MatchesNeeded(mode), pinned)
  }

  predicate AllBelow(idx: seq<nat>, n: nat)
  {
    forall k :: 0 <= k < |idx| ==> idx[k] < n
  }

  /** The `href`s present among the links at the given indices, in order
      (`if let Some(link) = ... { posts.push(link) }`). */
  function PresentHrefs(links: seq<Option<string>>, idx: seq<nat>): seq<string>
    requires AllBelow(idx, |links|)
  {
    if idx == [] then []
    else
      var last := links[idx[|idx| - 1]];
      PresentHrefs(links, idx[..|idx| - 1]) + (if last.Some? then [last.value] else [])
  }

  /** The outcome of `get_posts` as written: the length guard of
      `LastFive`/`LastTen` ignores the pinned tweet, and indexing past the
      links panics. `pinned` is 1 when a pinned tweet was found, else 0. */
  function ScrapeSelection(links: seq<Option<string>>, mode: RecordMode, pinned: nat): ScrapeOutcome
  {
    if (mode == LastFive || mode == LastTen) && |links| < MatchesNeeded(mode) then ScrapePanicked(NotEnoughPosts)
    else
      var idx := ScrapeIndices(mode, pinned, |links|);
      if AllBelow(idx, |links|) then Scraped(PresentHrefs(links, idx)) else ScrapePanicked(IndexOutOfRange)
  }

  /** Reads `links[idx[0]], links[idx[1]], ...`, pushing each `href` present;
      panics at the first index past the links. */
  method CollectHrefs(links: seq<Option<string>>, idx: seq<nat>) returns (out: ScrapeOutcome)
    ensures out == if AllBelow(idx, |links|) then Scraped(PresentHrefs(links, idx)) else ScrapePanicked(IndexOutOfRange)
  {
    var posts := [];
    var i := 0;
    while i < |idx|
      invariant i <= |idx| && AllBelow(idx[..i], |links|)
      invariant posts == PresentHrefs(links, idx[..i])
    {
      if idx[i] >= |links| {
        return ScrapePanicked(IndexOutOfRange);
      }
      var link := links[idx[i]];
      if link.Some? {
        posts := posts + [link.value];
      }
      assert idx[..i + 1][..i] == idx[..i];
      i := i + 1;
    }
    assert idx[..i] == idx;
    return Scraped(posts);
  }

  /** `PostRecordScrape::get_posts` once the page is loaded and the tab
      clicked: `links` are the `href` attributes of the status links, in
      page order. */
  method ScrapeSelect(links: seq<Option<string>>, mode: RecordMode, hasPinned: bool) returns (out: ScrapeOutcome)
    ensures out == ScrapeSelection(links, mode, if hasPinned then 1 else 0)
  {
    var pinned := if hasPinned then 1 else 0;
    if (mode == LastFive || mode == LastTen) && |links| < MatchesNeeded(mode) {
      return ScrapePanicked(NotEnoughPosts);
    }
    out := CollectHrefs(links, ScrapeIndices(mode, pinned, |links|));
  }

  /** The guard panics with "Not enough posts!" exactly for too few links in
      the two modes that check. */
  lemma ScrapeNotEnoughExactly(links: seq<Option<string>>, mode: RecordMode, pinned: nat)
    ensures ScrapeSelection(links, mode, pinned) == ScrapePanicked(NotEnoughPosts)
            <==> (mode == LastFive || mode == LastTen) && |links| < MatchesNeeded(mode)
  {
  }

  /** With a pinned tweet or none, the selection reads past the links exactly
      when there are no links past the pinned one in `Last` mode, or exactly
      as many links as `LastFive`/`LastTen` need and a pinned tweet. */
  lemma ScrapeOutOfRangeExactly(links: seq<Option<string>>, mode: RecordMode, pinned: nat)
    requires pinned <= 1
    ensures ScrapeSelection(links, mode, pinned) == ScrapePanicked(IndexOutOfRange)
            <==> (mode == Last && |links| <= pinned)
                 || ((mode == LastFive || mode == LastTen) && pinned == 1 && |links| == MatchesNeeded(mode))
  {
    var idx := ScrapeIndices(mode, pinned, |links|);
    if mode != AllFound && |idx| > 0 {
      assert idx[|idx| - 1] == MatchesNeeded(mode) - 1 + pinned;
      if idx[|idx| - 1] < |links| {
        assert AllBelow(idx, |links|);
      }
    }
  }

  /** Five status links, one of them pinned, in `LastFive` mode: the guard
      lets them through and `links[5]` panics. */
  lemma ScrapeGuardMissesPinned()
    ensures var links := [Some("a"), Some("b"), Some("c"), Some("d"), Some("e")];
            ScrapeSelection(links, LastFive, 1) == ScrapePanicked(IndexOutOfRange)
  {
    var links := [Some("a"), Some("b"), Some("c"), Some("d"), Some("e")];
    assert ScrapeIndices(LastFive, 1, 5)[4] == 5;
  }

  /** The selection with the length guard counting the pinned tweet. */
  function ScrapeSelectionIntended(links: seq<Option<string>>, mode: RecordMode, pinned: nat): ScrapeOutcome
  {
    if mode != AllFound && |links| < MatchesNeeded(mode) + pinned then ScrapePanicked(NotEnoughPosts)
    else
      var idx := ScrapeIndices(mode, pinned, |links|);
      if AllBelow(idx, |links|) then Scraped(PresentHrefs(links, idx)) else ScrapePanicked(IndexOutOfRange)
  }

  /** With the corrected guard no index is ever past the links, and
      whenever the links suffice it reads the links after the pinned one. */
  lemma ScrapeIntendedInRange(links: seq<Option<string>>, mode: RecordMode, pinned: nat)
    ensures ScrapeSelectionIntended(links, mode, pinned) != ScrapePanicked(IndexOutOfRange)
    ensures mode == AllFound || |links| >= MatchesNeeded(mode) + pinned
            ==> ScrapeSelectionIntended(links, mode, pinned).Scraped?
  {
    var idx := ScrapeIndices(mode, pinned, |links|);
    if mode != AllFound && |links| >= MatchesNeeded(mode) + pinned {
      assert AllBelow(idx, |links|);
    }
  }

  /** The correction only turns the panic past the links into the
      "Not enough posts!" panic; every other outcome is unchanged. */
  lemma ScrapeIntendedAgrees(links: seq<Option<string>>, mode: RecordMode, pinned: nat)
    requires pinned <= 1
    requires ScrapeSelection(links, mode, pinned) != ScrapePanicked(IndexOutOfRange)
    ensures ScrapeSelectionIntended(links, mode, pinned) == ScrapeSelection(links, mode, pinned)
  {
    ScrapeOutOfRangeExactly(links, mode, pinned);
    var idx := ScrapeIndices(mode, pinned, |links|);
    if mode != AllFound && |links| < MatchesNeeded(mode) + pinned && |idx| > 0 {
      assert idx[|idx| - 1] == MatchesNeeded(mode) - 1 + pinned;
    }
  }

  // ---------------------------------------------------------------------
  // The documents stored (`post_in_db`)

  /** `doc! {"username": ..., "post": ...}`. */
  datatype PostDoc = PostDoc(username: string, post: string)

  /** One document per post, each holding the text after the post's last
      `/` (`split("/").last()`, which always exists). */
  function Docs(userName: string, posts: seq<string>): (r: seq<PostDoc>)
    ensures |r| == |posts|
  {
    if posts == [] then [] else Docs(userName, posts[..|posts| - 1]) + [PostDoc(userName, LastSegment(posts[|posts| - 1], '/'))]
  }

  /** Document `k` holds the user name and the text after the last `/` of
      post `k`, which has no `/` left in it. */
  lemma {:induction false} DocsAt(userName: string, posts: seq<string>, k: nat)
    requires k < |posts|
    ensures Docs(userName, posts)[k] == PostDoc(userName, LastSegment(posts[k], '/'))
    ensures '/' !in Docs(userName, posts)[k].post
    decreases |posts|
  {
    var init := posts[..|posts| - 1];
    if k < |posts| - 1 {
      DocsAt(userName, init, k);
      assert Docs(userName, posts)[k] == Docs(userName, init)[k];
    }
  }

  /** The documents `post_in_db` inserts, or its error when there are none. */
  function PostDocuments(userName: string, posts: seq<string>): (r: Result<seq<PostDoc>, string>)
    ensures r.Err? <==> posts == []
    ensures r.Err? ==> r.error == "Length of posts is 0"
    ensures r.Ok? ==> r.value == Docs(userName, posts)
  {
    if |posts| == 0 then Err("Length of posts is 0") else Ok(Docs(userName, posts))
  }

  /** A status link `base/status/id` is stored as its id. */
  lemma StatusLinkDocument(userName: string, base: string, id: string)
    requires '/' !in id
    ensures Docs(userName, [base + "/status/" + id])[0] == PostDoc(userName, id)
  {
    assert base + "/status/" + id == (base + "/status") + ['/'] + id;
    LastSegmentAfter(base + "/status", '/', id);
    DocsAt(userName, [base + "/status/" + id], 0);
  }

  /** A post id without `/` (as `get_posts` returns them) is stored as it is. */
  lemma PlainIdDocument(userName: string, id: string)
    requires '/' !in id
    ensures Docs(userName, [id])[0] == PostDoc(userName, id)
  {
  }
}
