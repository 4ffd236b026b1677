/**
 * The handful of Python string operations the harvester relies on, written
 * over `seq<char>`: `strip()`, `strip(c)`, `split(c)`, `split(c, 1)`,
 * `c.join(parts)`, `lower()`, `startswith`/`endswith` and `str()` of a
 * non-negative integer.
 */
module Text {
  import opened Options

  type Str = seq<char>

  /** The characters for which Python's `str.isspace()` holds. */
  predicate IsSpace(c: char) {
    || c == ' '
    || ('\t' <= c <= '\r')
    || ('\U{1C}' <= c <= '\U{1F}')
    || c == '\U{85}' || c == '\U{A0}' || c == '\U{1680}'
    || ('\U{2000}' <= c <= '\U{200A}')
    || c == '\U{2028}' || c == '\U{2029}' || c == '\U{202F}' || c == '\U{205F}' || c == '\U{3000}'
  }

  predicate AllSpace(s: Str) {
    forall i :: 0 <= i < |s| ==> IsSpace(s[i])
  }

  /** The length of the longest prefix of `s` made of characters satisfying `drop`. */
  function LeadingRun(s: Str, drop: char -> bool): (n: nat)
    ensures n <= |s|
    ensures forall i :: 0 <= i < n ==> drop(s[i])
    ensures n < |s| ==> !drop(s[n])
  {
    if s == [] || !drop(s[0]) then 0 else 1 + LeadingRun(s[1..], drop)
  }

  /** Where the longest suffix of `s` made of characters satisfying `drop` begins. */
  function TrailingCut(s: Str, drop: char -> bool): (n: nat)
    ensures n <= |s|
    ensures forall i :: n <= i < |s| ==> drop(s[i])
    ensures n > 0 ==> !drop(s[n - 1])
  {
    if s == [] || !drop(s[|s| - 1]) then |s| else TrailingCut(s[..|s| - 1], drop)
  }

  /**
   * Trimming from both ends keeps `s[a..b]`: everything cut away satisfies
   * `drop`, what is kept starts and ends with a character that does not,
   * and nothing is kept only when every character satisfies `drop`.
   */
  lemma {:induction false} TrimBounds(s: Str, drop: char -> bool, a: nat, b: nat)
    requires a == LeadingRun(s, drop) && b == a + TrailingCut(s[a..], drop)
    ensures a <= b <= |s|
    ensures forall i :: b <= i < |s| ==> drop(s[i])
    ensures a < b ==> !drop(s[a]) && !drop(s[b - 1])
    ensures a == b ==> forall i :: 0 <= i < |s| ==> drop(s[i])
  {
    TrimTail(s, drop, a, b);
  }

  /** The trailing cut of `s[a..]`, seen from `s`. */
  lemma {:induction false} TrimTail(s: Str, drop: char -> bool, a: nat, b: nat)
    requires a <= |s| && b == a + TrailingCut(s[a..], drop)
    ensures b <= |s|
    ensures forall i :: b <= i < |s| ==> drop(s[i])
    ensures a < b ==> !drop(s[b - 1])
  {
    var t := s[a..];
    forall i | b <= i < |s|
      ensures drop(s[i])
    {
      assert s[i] == t[i - a];
    }
    if a < b {
      assert s[b - 1] == t[b - a - 1];
    }
  }

  /** Stated once so that proofs over sequences of strings need not rediscover it. */
  lemma {:induction false} AppendAssoc<T>(x: seq<T>, y: seq<T>, z: seq<T>)
    ensures x + (y + z) == (x + y) + z
  {
  }

  /** Python's `s.strip()`: `s` without its leading and trailing whitespace. */
  function Strip(s: Str): (r: Str)
    ensures r == [] <==> AllSpace(s)
    ensures r != [] ==> !IsSpace(r[0]) && !IsSpace(r[|r| - 1])
  {
    var a := LeadingRun(s, IsSpace);
    var b := a + TrailingCut(s[a..], IsSpace);
    StripFacts(s, a, b);
    s[a..b]
  }

  /** `strip()` only cuts whitespace, and only from the two ends. */
  lemma {:induction false} StripIsSlice(s: Str)
    ensures exists k :: 0 <= k <= |s| - |Strip(s)| && s[k..k + |Strip(s)|] == Strip(s)
                        && AllSpace(s[..k]) && AllSpace(s[k + |Strip(s)|..])
  {
    var a := LeadingRun(s, IsSpace);
    var b := a + TrailingCut(s[a..], IsSpace);
    TrimTail(s, IsSpace, a, b);
    StripCuts(s, a, b);
    var r := Strip(s);
    assert r == s[a..b] && |r| == b - a;
    assert s[a..a + |r|] == r && AllSpace(s[..a]) && AllSpace(s[a + |r|..]);
  }

  /** `Strip`'s contract, with the kept slice `s[a..b]` named. */
  lemma {:induction false} StripFacts(s: Str, a: nat, b: nat)
    requires a == LeadingRun(s, IsSpace) && b == a + TrailingCut(s[a..], IsSpace)
    ensures a <= b <= |s|
    ensures a == b <==> AllSpace(s)
    ensures a < b ==> !IsSpace(s[a..b][0]) && !IsSpace(s[a..b][b - a - 1])
    ensures s[a..a + (b - a)] == s[a..b] && AllSpace(s[..a]) && AllSpace(s[a + (b - a)..])
  {
    TrimBounds(s, IsSpace, a, b);
    StripCuts(s, a, b);
  }

  /** The whitespace-only pieces that `strip()` cuts off. */
  lemma {:induction false} StripCuts(s: Str, a: nat, b: nat)
    requires a <= b <= |s|
    requires forall i :: 0 <= i < a ==> IsSpace(s[i])
    requires forall i :: b <= i < |s| ==> IsSpace(s[i])
    ensures AllSpace(s[..a]) && AllSpace(s[b..])
  {
    forall i | 0 <= i < |s| - b
      ensures IsSpace(s[b..][i])
    {
      assert s[b..][i] == s[b + i];
    }
  }

  /** Python's `s.strip(c)` for a single character `c`. */
  function StripChar(s: Str, c: char): (r: Str)
    ensures r == [] <==> AllOf(s, c)
    ensures r != [] ==> r[0] != c && r[|r| - 1] != c
    ensures exists k :: 0 <= k <= |s| - |r| && s[k..][..|r|] == r
  {
    var a := LeadingRun(s, Is(c));
    var b := a + TrailingCut(s[a..], Is(c));
    TrimBounds(s, Is(c), a, b);
    assert s[a..][..b - a] == s[a..b];
    s[a..b]
  }

  /** Every character of `s` is `c`. */
  predicate AllOf(s: Str, c: char) {
    forall i :: 0 <= i < |s| ==> s[i] == c
  }

  /** `strip(c)` only cuts `c`, and only from the two ends. */
  lemma {:induction false} StripCharIsSlice(s: Str, c: char)
    ensures var r := StripChar(s, c);
            exists k :: 0 <= k <= |s| - |r| && s[k..][..|r|] == r
                        && AllOf(s[..k], c) && AllOf(s[k + |r|..], c)
  {
    var a := LeadingRun(s, Is(c));
    var b := a + TrailingCut(s[a..], Is(c));
    TrimTail(s, Is(c), a, b);
    var r := StripChar(s, c);
    assert r == s[a..b] && |r| == b - a;
    assert s[a..][..|r|] == r;
    assert AllOf(s[..a], c) by {
      forall i | 0 <= i < a
        ensures s[..a][i] == c
      {
        assert Is(c)(s[i]);
      }
    }
    assert AllOf(s[a + |r|..], c) by {
      forall i | 0 <= i < |s| - b
        ensures s[b..][i] == c
      {
        assert s[b..][i] == s[b + i] && Is(c)(s[b + i]);
      }
    }
  }

  /** The test for one given character. */
  function Is(c: char): (p: char -> bool)
    ensures forall x :: p(x) <==> x == c
  {
    x => x == c
  }

  /** One leading `c` before a string that neither starts nor ends with `c` is all that `strip(c)` removes. */
  lemma {:induction false} StripCharOne(s: Str, c: char)
    requires |s| >= 2 && s[0] == c && s[1] != c && s[|s| - 1] != c
    ensures StripChar(s, c) == s[1..]
  {
    assert s[1..][0] == s[1];
    assert LeadingRun(s, Is(c)) == 1;
    assert s[1..][|s[1..]| - 1] == s[|s| - 1];
    assert TrailingCut(s[1..], Is(c)) == |s| - 1;
  }

  lemma {:induction false} StripIdempotent(s: Str)
    ensures Strip(Strip(s)) == Strip(s)
  {
    var r := Strip(s);
    if r != [] {
      assert LeadingRun(r, IsSpace) == 0;
      assert r[0..] == r;
      assert TrailingCut(r, IsSpace) == |r|;
    }
  }

  /** Python's `lower()` on one character, for the ASCII letters. */
  function LowerChar(c: char): char {
    if 'A' <= c <= 'Z' then (c as int + 32) as char else c
  }

  function Lower(s: Str): (r: Str)
    ensures |r| == |s|
    ensures forall i :: 0 <= i < |s| ==> r[i] == LowerChar(s[i])
  {
    if s == [] then [] else [LowerChar(s[0])] + Lower(s[1..])
  }

  predicate StartsWith(s: Str, prefix: Str) {
    |prefix| <= |s| && s[..|prefix|] == prefix
  }

  predicate EndsWith(s: Str, suffix: Str) {
    |suffix| <= |s| && s[|s| - |suffix|..] == suffix
  }

  /** The index of the first `c` in `s`, or `|s|` when there is none. */
  function IndexOf(s: Str, c: char): (k: nat)
    ensures k <= |s|
    ensures k < |s| ==> s[k] == c
    ensures forall i :: 0 <= i < k ==> s[i] != c
  {
    if s == [] || s[0] == c then 0 else 1 + IndexOf(s[1..], c)
  }

  /** Python's `sep.join(parts)` for a one-character separator. */
  function Join(parts: seq<Str>, sep: char): Str {
    if parts == [] then []
    else if |parts| == 1 then parts[0]
    else parts[0] + [sep] + Join(parts[1..], sep)
  }

  lemma {:induction false} JoinSnoc(parts: seq<Str>, last: Str, sep: char)
    requires parts != []
    ensures Join(parts + [last], sep) == Join(parts, sep) + [sep] + last
  {
    if |parts| == 1 {
      assert parts + [last] == [parts[0], last];
    } else {
      assert (parts + [last])[1..] == parts[1..] + [last];
      JoinSnoc(parts[1..], last, sep);
    }
  }

  /** Python's `s.split(sep)`: never empty, pieces free of `sep`, and joining restores `s`. */
  function Split(s: Str, sep: char): (parts: seq<Str>)
    ensures |parts| >= 1
    ensures forall i :: 0 <= i < |parts| ==> sep !in parts[i]
    ensures Join(parts, sep) == s
    decreases |s|
  {
    var k := IndexOf(s, sep);
    if k == |s| then
      assert sep !in s;
      [s]
    else
      var rest := Split(s[k + 1..], sep);
      assert s == s[..k] + [sep] + s[k + 1..];
      [s[..k]] + rest
  }

  /** Python's `s.split(sep, 1)`: at most two pieces, cut at the first `sep`. */
  function SplitOnce(s: Str, sep: char): (parts: seq<Str>)
    ensures 1 <= |parts| <= 2
    ensures sep !in parts[0]
    ensures |parts| == 2 <==> sep in s
    ensures Join(parts, sep) == s
  {
    var k := IndexOf(s, sep);
    if k == |s| then
      [s]
    else
      assert s == s[..k] + [sep] + s[k + 1..];
      [s[..k], s[k + 1..]]
  }

  predicate IsDigit(c: char) {
    '0' <= c <= '9'
  }

  function DigitChar(d: nat): (c: char)
    requires d < 10
    ensures IsDigit(c)
  {
    ('0' as int + d) as char
  }

  /** Python's `str(n)` for a non-negative integer `n`. */
  function NatToString(n: nat): (r: Str)
    ensures r != []
    ensures forall i :: 0 <= i < |r| ==> IsDigit(r[i])
    ensures |r| > 1 ==> r[0] != '0'
  {
    if n < 10 then [DigitChar(n)] else NatToString(n / 10) + [DigitChar(n % 10)]
  }

  function DigitsValue(s: Str): nat
    requires forall i :: 0 <= i < |s| ==> IsDigit(s[i])
  {
    if s == [] then 0
    else
      var last := s[|s| - 1];
      assert IsDigit(last);
      DigitsValue(s[..|s| - 1]) * 10 + (last as int - '0' as int)
  }

  /** Reads back a decimal numeral; `None` unless `s` is a non-empty run of digits. */
  function ParseNat(s: Str): Option<nat> {
    if s != [] && forall i :: 0 <= i < |s| ==> IsDigit(s[i]) then Some(DigitsValue(s)) else None
  }

  lemma {:induction false} ParseNatToString(n: nat)
    ensures ParseNat(NatToString(n)) == Some(n)
  {
    if n >= 10 {
      ParseNatToString(n / 10);
      var r := NatToString(n);
      assert r[..|r| - 1] == NatToString(n / 10);
      assert r[|r| - 1] as int - '0' as int == n % 10;
      assert DigitsValue(r) == (n / 10) * 10 + n % 10;
    }
  }
}
