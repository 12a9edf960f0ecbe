/**
  Character classes and the string primitives the service relies on:
  JavaScript's `String.prototype.trim`, `startsWith`, `endsWith` and
  `includes`, and the maximal character runs that the two fence patterns'
  greedy quantifiers consume.

  Strings are `seq<char>`; a JavaScript string is a sequence of UTF-16 code
  units, but every character these operations look at lies in the Basic
  Multilingual Plane, so the two views agree on them.
 */
module Text {

  /** The whitespace set shared by `trim()` and the regular-expression class
      `\s`: the ECMAScript WhiteSpace and LineTerminator productions (tab,
      vertical tab, form feed, space, no-break space, byte order mark, every
      Zs separator, line feed, carriage return, line and paragraph separator). */
  predicate IsWs(c: char) {
    || c == '\t' || c == '\n' || c == '\U{0B}' || c == '\U{0C}' || c == '\r'
    || c == ' ' || c == '\U{A0}' || c == '\U{1680}'
    || ('\U{2000}' <= c <= '\U{200A}')
    || c == '\U{2028}' || c == '\U{2029}' || c == '\U{202F}' || c == '\U{205F}'
    || c == '\U{3000}' || c == '\U{FEFF}'
  }

  /** The regular-expression class `\w` without the `u`/`i` flags: `[A-Za-z0-9_]`. */
  predicate IsWord(c: char) {
    ('A' <= c <= 'Z') || ('a' <= c <= 'z') || ('0' <= c <= '9') || c == '_'
  }

  /** Every character of s[lo..hi] is whitespace. */
  predicate WsIn(s: string, lo: int, hi: int)
    requires 0 <= lo && hi <= |s|
  {
    forall k :: lo <= k < hi ==> IsWs(s[k])
  }

  /** Every character of s[lo..hi] is a word character. */
  predicate WordIn(s: string, lo: int, hi: int)
    requires 0 <= lo && hi <= |s|
  {
    forall k :: lo <= k < hi ==> IsWord(s[k])
  }

  predicate AllWs(s: string) {
    WsIn(s, 0, |s|)
  }

  /** Neither end of s is whitespace: what `trim()` leaves behind. */
  predicate IsTrimmed(s: string) {
    s == [] || (!IsWs(s[0]) && !IsWs(s[|s| - 1]))
  }

  predicate HasPrefix(s: string, p: string) {
    |p| <= |s| && s[..|p|] == p
  }

  predicate HasSuffix(s: string, p: string) {
    |p| <= |s| && s[|s| - |p|..] == p
  }

  predicate OccursAt(s: string, sub: string, i: int) {
    0 <= i && i + |sub| <= |s| && s[i..i + |sub|] == sub
  }

  /** `s.includes(sub)`. */
  predicate Contains(s: string, sub: string) {
    exists i :: 0 <= i <= |s| - |sub| && OccursAt(s, sub, i)
  }

  /** The first index at or after i whose character is not whitespace (|s|
      when there is none): where a greedy `\s*` started at i stops. */
  function SkipWs(s: string, i: nat): (r: nat)
    requires i <= |s|
    ensures i <= r <= |s|
    ensures WsIn(s, i, r)
    ensures r == |s| || !IsWs(s[r])
    decreases |s| - i
  {
    if i < |s| && IsWs(s[i]) then SkipWs(s, i + 1) else i
  }

  /** The first index at or after i whose character is not a word character:
      where a greedy `\w*` started at i stops. */
  function SkipWord(s: string, i: nat): (r: nat)
    requires i <= |s|
    ensures i <= r <= |s|
    ensures WordIn(s, i, r)
    ensures r == |s| || !IsWord(s[r])
    decreases |s| - i
  {
    if i < |s| && IsWord(s[i]) then SkipWord(s, i + 1) else i
  }

  /** The least index r in [lo, hi] such that s[r..hi] is all whitespace:
      the end of s[lo..hi] once its trailing whitespace is removed. */
  function SkipWsBack(s: string, lo: nat, hi: nat): (r: nat)
    requires lo <= hi <= |s|
    ensures lo <= r <= hi
    ensures WsIn(s, r, hi)
    ensures r == lo || !IsWs(s[r - 1])
    decreases hi - lo
  {
    if lo < hi && IsWs(s[hi - 1]) then SkipWsBack(s, lo, hi - 1) else hi
  }

  /** r sits in s at offset a with nothing but whitespace around it. */
  predicate Pads(s: string, a: int, r: string) {
    0 <= a && a + |r| <= |s| && s[a..a + |r|] == r
    && WsIn(s, 0, a) && WsIn(s, a + |r|, |s|)
  }

  /** JavaScript's `s.trim()`. */
  function Trim(s: string): (r: string)
    ensures IsTrimmed(r)
    ensures exists a :: Pads(s, a, r)
    ensures r == [] <==> AllWs(s)
  {
    var a := SkipWs(s, 0);
    var b := SkipWsBack(s, a, |s|);
    assert Pads(s, a, s[a..b]);
    s[a..b]
  }

  /** Trimming has exactly one possible outcome: the only trimmed string
      that sits in s between whitespace is Trim(s). */
  lemma {:induction false} TrimUnique(s: string, a: int, r: string)
    requires IsTrimmed(r) && Pads(s, a, r)
    ensures r == Trim(s)
  {
    var t := Trim(s);
    var b :| Pads(s, b, t);
    if r == [] {
      assert AllWs(s) by {
        forall k | 0 <= k < |s| ensures IsWs(s[k]) {
          assert k < a || a + |r| <= k;
        }
      }
    } else {
      // s has a non-whitespace character, so t is not empty either.
      assert s[a] == r[0] && s[a + |r| - 1] == r[|r| - 1];
      assert t != [];
      // Both start at the first non-whitespace character of s and end at
      // the last one.
      assert s[b] == t[0] && s[b + |t| - 1] == t[|t| - 1];
      assert a == b;
      assert |r| == |t|;
    }
  }

  /** Surrounding a trimmed string with whitespace and trimming gives it back;
      in particular `trim()` is the identity on its own results. */
  lemma TrimPadded(pre: string, x: string, post: string)
    requires AllWs(pre) && AllWs(post) && IsTrimmed(x)
    ensures Trim(pre + x + post) == x
  {
    var s := pre + x + post;
    assert s[|pre|..|pre| + |x|] == x;
    assert Pads(s, |pre|, x);
    TrimUnique(s, |pre|, x);
  }

  lemma TrimIdempotent(s: string)
    ensures Trim(Trim(s)) == Trim(s)
  {
    TrimPadded([], Trim(s), []);
    assert [] + Trim(s) + [] == Trim(s);
  }
}
