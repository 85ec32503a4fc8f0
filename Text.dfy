/** String operations of the Rust standard library that the core relies on:
    `join`, `replace`, `split(..).last()`, decimal formatting of integers.
    Strings are sequences of characters, and the model takes a byte offset
    (what a regular-expression match reports) as a character index. That is
    only right for ASCII text: the model assumes the text before every match
    is ASCII, and `IsDigit` is the ASCII digit class. */
module Text {

  predicate IsDigit(c: char) {
    '0' <= c <= '9'
  }

  predicate AllDigits(s: string) {
    forall j :: 0 <= j < |s| ==> IsDigit(s[j])
  }

  /** `parts.join(sep)`. */
  function Join(parts: seq<string>, sep: string): string
  {
    if parts == [] then []
    else if |parts| == 1 then parts[0]
    else parts[0] + sep + Join(parts[1..], sep)
  }

  /** Pushing the pieces `a..b` of a list one after the other with
      `push_str`; nothing when the range is empty. */
  function ConcatRange(parts: seq<string>, a: nat, b: nat): string
    requires a >= b || b <= |parts|
    decreases b
  {
    if b <= a then [] else ConcatRange(parts, a, b - 1) + parts[b - 1]
  }

  /** True when `pat` occurs in `s` at position `p`. */
  predicate OccursAt(s: string, pat: string, p: nat) {
    p + |pat| <= |s| && s[p..p + |pat|] == pat
  }

  /** `s.replace(pat, rep)`: every non-overlapping occurrence of `pat`,
      scanning from the left, is replaced by `rep`. */
  function ReplaceAll(s: string, pat: string, rep: string): (r: string)
    requires |pat| > 0
    ensures |pat| == 1 && pat[0] !in rep ==> pat[0] !in r
    decreases |s|
  {
    if |s| < |pat| then s
    else if s[..|pat|] == pat then rep + ReplaceAll(s[|pat|..], pat, rep)
    else [s[0]] + ReplaceAll(s[1..], pat, rep)
  }

  /** A text in which `pat` never occurs is left as it is by `replace`. */
  lemma {:induction false} ReplaceAllAbsent(s: string, pat: string, rep: string)
    requires |pat| > 0
    requires forall p: nat :: !OccursAt(s, pat, p)
    ensures ReplaceAll(s, pat, rep) == s
    decreases |s|
  {
    if |s| >= |pat| {
      assert !OccursAt(s, pat, 0);
      forall p: nat ensures !OccursAt(s[1..], pat, p) {
        assert !OccursAt(s, pat, p + 1);
        if p + |pat| <= |s| - 1 {
          assert s[p + 1..p + 1 + |pat|] == s[1..][p..p + |pat|];
        }
      }
      ReplaceAllAbsent(s[1..], pat, rep);
    }
  }

  /** `s` with every occurrence of `c` removed. */
  function RemoveChar(s: string, c: char): string
  {
    if s == [] then [] else (if s[0] == c then [] else [s[0]]) + RemoveChar(s[1..], c)
  }

  /** `replace` of a one-character pattern by nothing removes that character. */
  lemma {:induction false} ReplaceCharIsRemove(s: string, c: char)
    ensures ReplaceAll(s, [c], "") == RemoveChar(s, c)
  {
    if s != [] {
      assert s[..1] == [c] <==> s[0] == c;
      ReplaceCharIsRemove(s[1..], c);
    }
  }

  lemma {:induction false} RemoveCharAppend(a: string, b: string, c: char)
    ensures RemoveChar(a + b, c) == RemoveChar(a, c) + RemoveChar(b, c)
  {
    if a != [] {
      assert (a + b)[0] == a[0];
      assert (a + b)[1..] == a[1..] + b;
      RemoveCharAppend(a[1..], b, c);
    } else {
      assert a + b == b;
    }
  }

  lemma {:induction false} RemoveCharAbsent(s: string, c: char)
    requires c !in s
    ensures RemoveChar(s, c) == s
  {
    if s != [] {
      RemoveCharAbsent(s[1..], c);
    }
  }

  /** Character-wise substitution: each character that is a key of `m` is
      replaced by its value, every other character is kept. */
  function MapChars(s: string, m: map<char, string>): string
  {
    if s == [] then []
    else (if s[0] in m then m[s[0]] else [s[0]]) + MapChars(s[1..], m)
  }

  /** `replace` with a one-character pattern is a character-wise substitution. */
  lemma {:induction false} ReplaceCharIsMapChars(s: string, k: char, v: string)
    ensures ReplaceAll(s, [k], v) == MapChars(s, map[k := v])
  {
    if s != [] {
      assert s[..1] == [k] <==> s[0] == k;
      ReplaceCharIsMapChars(s[1..], k, v);
    }
  }

  lemma {:induction false} MapCharsAppend(a: string, b: string, m: map<char, string>)
    ensures MapChars(a + b, m) == MapChars(a, m) + MapChars(b, m)
  {
    if a != [] {
      assert (a + b)[0] == a[0];
      assert (a + b)[1..] == a[1..] + b;
      MapCharsAppend(a[1..], b, m);
    } else {
      assert a + b == b;
    }
  }

  lemma {:induction false} MapCharsIdentity(s: string, m: map<char, string>)
    requires forall j :: 0 <= j < |s| ==> s[j] !in m
    ensures MapChars(s, m) == s
  {
    if s != [] {
      MapCharsIdentity(s[1..], m);
    }
  }

  /** A key whose character appears in no value of `m` is absent from the result. */
  lemma {:induction false} MapCharsRemovesKey(s: string, m: map<char, string>, c: char)
    requires c in m
    requires forall d :: d in m ==> c !in m[d]
    ensures c !in MapChars(s, m)
  {
    if s != [] {
      MapCharsRemovesKey(s[1..], m, c);
    }
  }

  /** Substituting with `m` and then replacing a fresh key `k` is the same as
      one substitution with `m` extended by `k`, provided no value of `m`
      contains `k`: the second pass only sees the original occurrences of `k`. */
  lemma {:induction false} MapCharsCompose(s: string, m: map<char, string>, k: char, v: string)
    requires k !in m
    requires forall d :: d in m ==> k !in m[d]
    ensures MapChars(MapChars(s, m), map[k := v]) == MapChars(s, m[k := v])
  {
    if s != [] {
      var head := if s[0] in m then m[s[0]] else [s[0]];
      MapCharsAppend(head, MapChars(s[1..], m), map[k := v]);
      if s[0] in m {
        MapCharsIdentity(head, map[k := v]);
      } else {
        assert head == [s[0]] && head[1..] == [];
      }
      MapCharsCompose(s[1..], m, k, v);
    }
  }

  function DigitChar(d: nat): (c: char)
    requires d < 10
    ensures IsDigit(c) && c as int - '0' as int == d
  {
    ('0' as int + d) as char
  }

  function DigitValue(c: char): (d: nat)
    requires IsDigit(c)
    ensures d < 10 && DigitChar(d) == c
  {
    c as int - '0' as int
  }

  /** `format!("{}", n)` for an unsigned integer: its decimal digits. */
  function Decimal(n: nat): (r: string)
    ensures |r| >= 1 && AllDigits(r)
    ensures (r[0] == '0') == (n == 0)
    decreases n
  {
    if n < 10 then [DigitChar(n)] else Decimal(n / 10) + [DigitChar(n % 10)]
  }

  /** The value of a string of decimal digits. */
  function ParseDecimal(s: string): nat
    requires AllDigits(s)
  {
    if s == [] then 0 else 10 * ParseDecimal(s[..|s| - 1]) + DigitValue(s[|s| - 1])
  }

  /** Reading the digits back gives the number. */
  lemma {:induction false} DecimalRoundTrip(n: nat)
    ensures ParseDecimal(Decimal(n)) == n
    decreases n
  {
    if n >= 10 {
      var s := Decimal(n);
      assert s[..|s| - 1] == Decimal(n / 10);
      DecimalRoundTrip(n / 10);
    }
  }

  /** Decimal renderings of distinct numbers differ. */
  lemma DecimalInjective(a: nat, b: nat)
    requires Decimal(a) == Decimal(b)
    ensures a == b
  {
    DecimalRoundTrip(a);
    DecimalRoundTrip(b);
  }

  /** `s.split(sep).last()`, which always exists: the text after the last
      `sep`, or the whole of `s` when it holds no `sep`. */
  function LastSegment(s: string, sep: char): (r: string)
    ensures sep !in r
    ensures |r| <= |s| && s[|s| - |r|..] == r
    ensures |r| < |s| ==> s[|s| - |r| - 1] == sep
    ensures sep !in s ==> r == s
  {
    if s == [] then []
    else if s[|s| - 1] == sep then []
    else LastSegment(s[..|s| - 1], sep) + [s[|s| - 1]]
  }

  /** The text after the last `sep` is everything after a `sep` that no
      other `sep` follows. */
  lemma {:induction false} LastSegmentAfter(pre: string, sep: char, last: string)
    requires sep !in last
    ensures LastSegment(pre + [sep] + last, sep) == last
    decreases |last|
  {
    var s := pre + [sep] + last;
    if last != [] {
      var init := last[..|last| - 1];
      assert s[..|s| - 1] == pre + [sep] + init;
      assert last == init + [last[|last| - 1]];
      LastSegmentAfter(pre, sep, init);
    }
  }
}
