/**
  The two regular expressions the service applies to a trimmed reply t,
  stated as predicates over positions of t rather than as a regex engine.

    strict:   /^```javascript\s*([\s\S]*?)\s*```$/s
    generic:  /^```(?:\w*\s*)?\n?([\s\S]*?)\n?\s*```$/s

  Neither pattern has the `m` flag, so `^` and `$` anchor at the two ends of
  t and the only start position tried is 0. A way the pattern can match is a
  choice of the positions where each sub-pattern stops (`...At`); a
  backtracking engine reports the first such choice in its search order —
  greedy quantifiers try longer runs first, the lazy capture tries shorter
  captures first — and that first choice is what `...Best` pins down.
  The matchers below compute it and are proved to return exactly it.
 */
module FencePatterns {
  import opened Text
  import opened Outcomes

  const Fence: string := "```"
  const JsFence: string := "```javascript"

  /** The capture group of a match: t[lo..hi]. */
  datatype Span = Span(lo: nat, hi: nat)

  // ---------------------------------------------------------------------------
  // Strict pattern
  // ---------------------------------------------------------------------------

  /** The strict pattern matches t with `\s*` ending at i and the capture
      t[i..j]; the trailing `\s*` then covers t[j..|t| - 3]. */
  predicate StrictAt(t: string, i: int, j: int) {
    |JsFence| <= i <= j <= |t| - |Fence|
    && t[..|JsFence|] == JsFence && t[|t| - |Fence|..] == Fence
    && WsIn(t, |JsFence|, i) && WsIn(t, j, |t| - |Fence|)
  }

  /** The match a backtracking engine reports: the longest leading `\s*`
      first, then the shortest capture. */
  ghost predicate StrictBest(t: string, i: int, j: int) {
    StrictAt(t, i, j)
    && forall i', j' :: StrictAt(t, i', j') ==> i' < i || (i' == i && j <= j')
  }

  /** `t.match(strict)`: the span of group 1, or None when there is no match. */
  function StrictMatch(t: string): (m: Option<Span>)
    ensures m.Some? ==> StrictBest(t, m.value.lo, m.value.hi)
    ensures m.Some? ==> IsTrimmed(t[m.value.lo..m.value.hi])
    ensures m.None? ==> forall i, j :: !StrictAt(t, i, j)
  {
    if |t| >= |JsFence| + |Fence| && HasPrefix(t, JsFence) && HasSuffix(t, Fence) then
      var e := |t| - |Fence|;
      assert t[e] == t[e..][0];
      var i := SkipWs(t, |JsFence|);
      var j := SkipWsBack(t, i, e);
      assert StrictAt(t, i, j);
      assert forall i', j' :: StrictAt(t, i', j') ==> i' < i || (i' == i && j <= j') by {
        forall i', j' | StrictAt(t, i', j') ensures i' < i || (i' == i && j <= j') {
          assert !IsWs(t[i]);
          if i < j {
            assert !IsWs(t[j - 1]);
          }
        }
      }
      StrictCaptureIsTrimmedBody(t, i, j);
      Some(Span(i, j))
    else
      None
  }

  /** There is at most one reported match. */
  lemma StrictBestUnique(t: string, i: int, j: int, i': int, j': int)
    requires StrictBest(t, i, j) && StrictBest(t, i', j')
    ensures i == i' && j == j'
  {
  }

  /** Whatever the engine captures is already trimmed, and it is the trimmed
      text between the opening `javascript` tag and the closing fence. */
  lemma StrictCaptureIsTrimmedBody(t: string, i: int, j: int)
    requires StrictBest(t, i, j)
    ensures IsTrimmed(t[i..j])
    ensures t[i..j] == Trim(t[|JsFence|..|t| - |Fence|])
  {
    if i < j {
      // Moving either end of the capture inwards over whitespace would give
      // an earlier match in the search order.
      assert !StrictAt(t, i + 1, j);
      assert !IsWs(t[i]);
      assert !StrictAt(t, i, j - 1);
      assert !IsWs(t[j - 1]);
    }
    var body := t[|JsFence|..|t| - |Fence|];
    assert body[i - |JsFence|..j - |JsFence|] == t[i..j];
    assert Pads(body, i - |JsFence|, t[i..j]);
    TrimUnique(body, i - |JsFence|, t[i..j]);
  }

  /** The strict pattern matches exactly the text that starts with the
      `javascript` fence and ends with a separate closing fence. */
  lemma StrictMatchesFenced(t: string)
    ensures StrictMatch(t).Some? <==> |t| >= |JsFence| + |Fence| && HasPrefix(t, JsFence) && HasSuffix(t, Fence)
    ensures StrictMatch(t).Some? ==>
      t[StrictMatch(t).value.lo..StrictMatch(t).value.hi] == Trim(t[|JsFence|..|t| - |Fence|])
  {
    var m := StrictMatch(t);
    if m.Some? {
      StrictCaptureIsTrimmedBody(t, m.value.lo, m.value.hi);
    }
  }

  /** A text fenced at both ends whose tag after the opening fence is not the
      `javascript` tag (it stops at a character that is not a word character
      before reaching ten characters, or it spells something else) is not
      matched by the strict pattern. */
  lemma NotJsFenced(t: string, tagEnd: int)
    requires HasPrefix(t, Fence) && |Fence| <= tagEnd < |t|
    requires WordIn(t, |Fence|, tagEnd) && !IsWord(t[tagEnd])
    requires tagEnd - |Fence| >= 10 ==> t[|Fence|..|JsFence|] != JsFence[|Fence|..]
    ensures !HasPrefix(t, JsFence)
  {
    if tagEnd < |JsFence| {
      // The tag stops inside the ten letters of `javascript`.
      assert IsWord(JsFence[tagEnd]);
      assert t[tagEnd] != JsFence[tagEnd];
    }
  }

  // ---------------------------------------------------------------------------
  // Generic pattern
  // ---------------------------------------------------------------------------

  /** The generic pattern matches t with the tag `\w*` ending at p1, its `\s*`
      ending at p2, the optional `\n` ending at p3, and the capture t[p3..p4];
      `\n?\s*` after the capture covers t[p4..|t| - 3], which is any run of
      whitespace since a line feed is whitespace. (When the optional group
      would match nothing the engine skips it instead; either way p1 = p2 = 3.) */
  predicate GenericAt(t: string, p1: int, p2: int, p3: int, p4: int) {
    |Fence| <= p1 <= p2 <= p3 <= p4 <= |t| - |Fence|
    && t[..|Fence|] == Fence && t[|t| - |Fence|..] == Fence
    && WordIn(t, |Fence|, p1) && WsIn(t, p1, p2)
    && (p3 == p2 || (p3 == p2 + 1 && t[p2] == '\n'))
    && WsIn(t, p4, |t| - |Fence|)
  }

  /** Search order: longer `\w*`, then longer `\s*`, then the `\n` taken
      before it is skipped, then the shorter capture. */
  predicate GenericBefore(p1: int, p2: int, p3: int, p4: int, q1: int, q2: int, q3: int, q4: int) {
    q1 < p1 || (q1 == p1 && (q2 < p2 || (q2 == p2 && (q3 < p3 || (q3 == p3 && p4 <= q4)))))
  }

  ghost predicate GenericBest(t: string, p1: int, p2: int, p3: int, p4: int) {
    GenericAt(t, p1, p2, p3, p4)
    && forall q1, q2, q3, q4 :: GenericAt(t, q1, q2, q3, q4) ==> GenericBefore(p1, p2, p3, p4, q1, q2, q3, q4)
  }

  /** `t.match(generic)`: the span of group 1, or None when there is no match. */
  function GenericMatch(t: string): (m: Option<Span>)
    ensures m.Some? ==> exists p1, p2 :: GenericBest(t, p1, p2, m.value.lo, m.value.hi)
    ensures m.Some? ==> m.value.lo <= m.value.hi <= |t| && IsTrimmed(t[m.value.lo..m.value.hi])
    ensures m.None? ==> forall p1, p2, p3, p4 :: !GenericAt(t, p1, p2, p3, p4)
  {
    if |t| >= 2 * |Fence| && HasPrefix(t, Fence) && HasSuffix(t, Fence) then
      var e := |t| - |Fence|;
      assert t[e] == t[e..][0];
      var p1 := SkipWord(t, |Fence|);
      var p2 := SkipWs(t, p1);
      var p4 := SkipWsBack(t, p2, e);
      assert GenericAt(t, p1, p2, p2, p4);
      assert GenericBest(t, p1, p2, p2, p4) by {
        forall q1, q2, q3, q4 | GenericAt(t, q1, q2, q3, q4)
          ensures GenericBefore(p1, p2, p2, p4, q1, q2, q3, q4)
        {
          assert !IsWord(t[p1]) && !IsWs(t[p2]);
          if p2 < p4 {
            assert !IsWs(t[p4 - 1]);
          }
        }
      }
      GenericCaptureIsTrimmedBody(t, p1, p2, p2, p4);
      Some(Span(p2, p4))
    else
      None
  }

  /** The generic pattern matches every text of at least six characters that
      starts and ends with a fence; its capture is the trimmed text between
      the longest word run after the opening fence (ending at tagEnd) and the
      closing fence. */
  lemma GenericMatchesAfterTag(t: string, tagEnd: int)
    requires |t| >= 2 * |Fence| && HasPrefix(t, Fence) && HasSuffix(t, Fence)
    requires |Fence| <= tagEnd <= |t| - |Fence| && WordIn(t, |Fence|, tagEnd)
    requires tagEnd == |t| - |Fence| || !IsWord(t[tagEnd])
    ensures GenericMatch(t).Some?
    ensures t[GenericMatch(t).value.lo..GenericMatch(t).value.hi] == Trim(t[tagEnd..|t| - |Fence|])
  {
    var m := GenericMatch(t);
    var p1, p2 :| GenericBest(t, p1, p2, m.value.lo, m.value.hi);
    GenericCaptureIsTrimmedBody(t, p1, p2, m.value.lo, m.value.hi);
    assert p1 == tagEnd;
  }

  lemma GenericBestUnique(t: string, p1: int, p2: int, p3: int, p4: int,
                                      q1: int, q2: int, q3: int, q4: int)
    requires GenericBest(t, p1, p2, p3, p4) && GenericBest(t, q1, q2, q3, q4)
    ensures p1 == q1 && p2 == q2 && p3 == q3 && p4 == q4
  {
  }

  /** The reported match treats the longest run of word characters after the
      opening fence as a language tag, and captures the trimmed text between
      that tag and the closing fence. */
  lemma GenericCaptureIsTrimmedBody(t: string, p1: int, p2: int, p3: int, p4: int)
    requires GenericBest(t, p1, p2, p3, p4)
    ensures WordIn(t, |Fence|, p1) && (p1 == |t| - |Fence| || !IsWord(t[p1]))
    ensures IsTrimmed(t[p3..p4])
    ensures t[p3..p4] == Trim(t[p1..|t| - |Fence|])
  {
    var e := |t| - |Fence|;
    if p1 < e {
      // A longer tag (with an empty capture) would come earlier.
      assert !GenericAt(t, p1 + 1, p1 + 1, p1 + 1, e);
      assert !IsWord(t[p1]);
    }
    if p3 < p4 {
      // So would a longer `\s*` or a shorter capture.
      assert !GenericAt(t, p1, p3 + 1, p3 + 1, p4);
      assert !IsWs(t[p3]);
      assert !GenericAt(t, p1, p2, p3, p4 - 1);
      assert !IsWs(t[p4 - 1]);
    }
    var rest := t[p1..e];
    assert rest[p3 - p1..p4 - p1] == t[p3..p4];
    assert WsIn(t, p1, p3);
    assert Pads(rest, p3 - p1, t[p3..p4]);
    TrimUnique(rest, p3 - p1, t[p3..p4]);
  }
}
