/**
  Recovering the code from the backend's reply (services/geminiService.ts,
  lines 68-92): trim the reply; keep the capture of the strict
  ```` ```javascript ```` pattern if it is non-empty; otherwise, for a reply
  fenced at both ends, keep the capture of the generic pattern if it is
  non-empty; otherwise keep the trimmed reply as it is. An empty outcome is
  an error.
 */
module Extraction {
  import opened Text
  import opened Outcomes
  import opened FencePatterns

  /** The message of the `Error` thrown when nothing is left (written in
      pieces so that the verifier can look at its characters). */
  const EmptyReplyMessage: string :=
    "The AI failed to generate" + " a valid code structure." + " The response was empty"
    + " or not in the expected format."

  /** The capture of a match, when the match exists and the capture is a
      non-empty (truthy) string. */
  function NonEmptyCapture(t: string, m: Option<Span>): (c: Option<string>)
    requires m.Some? ==> m.value.lo <= m.value.hi <= |t|
    ensures c.Some? <==> m.Some? && m.value.lo < m.value.hi
    ensures c.Some? ==> c.value != []
  {
    if m.Some? && m.value.lo < m.value.hi then Some(t[m.value.lo..m.value.hi]) else None
  }

  /** The code kept by the three tiers, before the emptiness test. */
  function Tiers(t: string): (content: string)
    requires t == Trim(t)
    ensures IsTrimmed(content)
    ensures content == [] <==> t == []
  {
    var strict := StrictMatch(t);
    if strict.Some? && strict.value.lo < strict.value.hi then
      TrimPadded([], t[strict.value.lo..strict.value.hi], []);
      Trim(NonEmptyCapture(t, strict).value)
    else if HasPrefix(t, Fence) && HasSuffix(t, Fence) then
      var generic := GenericMatch(t);
      if generic.Some? && generic.value.lo < generic.value.hi then
        TrimPadded([], t[generic.value.lo..generic.value.hi], []);
        Trim(NonEmptyCapture(t, generic).value)
      else
        t
    else
      t
  }

  /** `response.text.trim()` followed by the three tiers and the emptiness
      test; a failure carries the message of the `Error` thrown at line 89. */
  function ExtractCode(reply: string): (r: Result<string>)
    ensures r.Failure? <==> AllWs(reply)
    ensures r.Failure? ==> r.message == EmptyReplyMessage
    ensures r.Success? ==> r.value != [] && IsTrimmed(r.value)
  {
    var t := Trim(reply);
    TrimIdempotent(reply);
    var content := Tiers(t);
    if content == [] then Failure(EmptyReplyMessage) else Success(content)
  }

  // ---------------------------------------------------------------------------
  // The tiers, stated against the patterns' matching semantics
  // ---------------------------------------------------------------------------

  /** Tier 1: a non-empty capture of the strict pattern is the result. */
  lemma StrictTier(reply: string, i: int, j: int)
    requires StrictBest(Trim(reply), i, j) && i < j
    ensures ExtractCode(reply) == Success(Trim(reply)[i..j])
  {
    var t := Trim(reply);
    TrimIdempotent(reply);
    var m := StrictMatch(t);
    StrictBestUnique(t, i, j, m.value.lo, m.value.hi);
    assert m == Some(Span(i, j));
    StrictCaptureIsTrimmedBody(t, i, j);
    TrimPadded([], t[i..j], []);
    assert [] + t[i..j] + [] == t[i..j];
    assert Tiers(t) == t[i..j];
  }

  /** The strict pattern does not yield a non-empty capture of t. */
  ghost predicate NoStrictCode(t: string) {
    forall i, j :: StrictBest(t, i, j) ==> i == j
  }

  ghost predicate NoGenericCode(t: string) {
    forall p1, p2, p3, p4 :: GenericBest(t, p1, p2, p3, p4) ==> p3 == p4
  }

  /** Tier 2: failing that, a non-empty capture of the generic pattern is the
      result. (The pattern only matches text that starts and ends with a
      fence, so the `startsWith`/`endsWith` test is implied.) */
  lemma GenericTier(reply: string, p1: int, p2: int, p3: int, p4: int)
    requires NoStrictCode(Trim(reply))
    requires GenericBest(Trim(reply), p1, p2, p3, p4) && p3 < p4
    ensures ExtractCode(reply) == Success(Trim(reply)[p3..p4])
  {
    var t := Trim(reply);
    TrimIdempotent(reply);
    var m := GenericMatch(t);
    var q1, q2 :| GenericBest(t, q1, q2, m.value.lo, m.value.hi);
    GenericBestUnique(t, p1, p2, p3, p4, q1, q2, m.value.lo, m.value.hi);
    var s := StrictMatch(t);
    assert !(s.Some? && s.value.lo < s.value.hi);
    assert HasPrefix(t, Fence) && HasSuffix(t, Fence);
    GenericTierComputed(t);
  }

  /** The second tier in terms of the matchers' results. */
  lemma GenericTierComputed(t: string)
    requires t == Trim(t)
    requires var s := StrictMatch(t); !(s.Some? && s.value.lo < s.value.hi)
    requires HasPrefix(t, Fence) && HasSuffix(t, Fence)
    requires var g := GenericMatch(t); g.Some? && g.value.lo < g.value.hi
    ensures Tiers(t) == t[GenericMatch(t).value.lo..GenericMatch(t).value.hi]
  {
    var g := GenericMatch(t);
    TrimPadded([], t[g.value.lo..g.value.hi], []);
    assert [] + t[g.value.lo..g.value.hi] + [] == t[g.value.lo..g.value.hi];
  }

  /** Tier 3, fenced: when neither pattern yields non-empty code, the trimmed
      reply is returned fences and all, not rejected. */
  lemma FencedVerbatimTier(reply: string)
    requires HasPrefix(Trim(reply), Fence) && HasSuffix(Trim(reply), Fence)
    requires NoStrictCode(Trim(reply)) && NoGenericCode(Trim(reply))
    ensures ExtractCode(reply) == Success(Trim(reply))
  {
    var t := Trim(reply);
    TrimIdempotent(reply);
    var s := StrictMatch(t);
    if s.Some? {
      assert s.value.lo == s.value.hi;
    }
    var g := GenericMatch(t);
    if g.Some? {
      var p1, p2 :| GenericBest(t, p1, p2, g.value.lo, g.value.hi);
      assert g.value.lo == g.value.hi;
    }
    assert t[0] == Fence[0];
  }

  /** Tier 3, unfenced: a reply that does not both start and end with a fence
      is returned as its trimmed self, unless that is empty. */
  lemma UnfencedVerbatimTier(reply: string)
    requires !(HasPrefix(Trim(reply), Fence) && HasSuffix(Trim(reply), Fence))
    requires !AllWs(reply)
    ensures ExtractCode(reply) == Success(Trim(reply))
  {
    var t := Trim(reply);
    TrimIdempotent(reply);
    var s := StrictMatch(t);
    if s.Some? {
      assert StrictAt(t, s.value.lo, s.value.hi);
      assert t[..|Fence|] == t[..|JsFence|][..|Fence|];
    }
  }

  /** A successful result that is not itself fenced at both ends extracts to
      itself: results are trimmed and fall through to the verbatim tier. */
  lemma ExtractIdempotent(reply: string, code: string)
    requires ExtractCode(reply) == Success(code)
    requires !(HasPrefix(code, Fence) && HasSuffix(code, Fence))
    ensures ExtractCode(code) == Success(code)
  {
    TrimPadded([], code, []);
    assert [] + code + [] == code;
    UnfencedVerbatimTier(code);
  }

  // ---------------------------------------------------------------------------
  // Reply shapes
  // ---------------------------------------------------------------------------

  /** A reply that is a fenced text with whitespace around it trims to that
      fenced text. */
  lemma TrimFenced(pre: string, core: string, post: string)
    requires AllWs(pre) && AllWs(post)
    requires HasPrefix(core, Fence) && HasSuffix(core, Fence)
    ensures Trim(pre + core + post) == core
  {
    assert core[0] == Fence[0] && core[|core| - 1] == core[|core| - |Fence|..][2];
    TrimPadded(pre, core, post);
  }

  /** A reply that is a `javascript`-fenced text, with whitespace around it,
      whose body trims to something non-empty extracts to that trimmed body. */
  lemma StrictFencedReply(pre: string, core: string, post: string)
    requires AllWs(pre) && AllWs(post)
    requires |core| >= |JsFence| + |Fence| && HasPrefix(core, JsFence) && HasSuffix(core, Fence)
    requires Trim(core[|JsFence|..|core| - |Fence|]) != []
    ensures ExtractCode(pre + core + post) == Success(Trim(core[|JsFence|..|core| - |Fence|]))
  {
    assert HasPrefix(core, Fence) by {
      assert core[..|Fence|] == core[..|JsFence|][..|Fence|];
    }
    TrimFenced(pre, core, post);
    StrictMatchesFenced(core);
    var m := StrictMatch(core);
    StrictTier(pre + core + post, m.value.lo, m.value.hi);
  }

  /** Round trip of the strict tier: a trimmed, non-empty body wrapped in a
      `javascript` fence, with any whitespace around the body and around the
      fences, extracts to exactly that body. */
  lemma StrictRoundTrip(pre: string, w1: string, body: string, w2: string, post: string)
    requires AllWs(pre) && AllWs(w1) && AllWs(w2) && AllWs(post)
    requires body != [] && IsTrimmed(body)
    ensures ExtractCode(pre + JsFence + w1 + body + w2 + Fence + post) == Success(body)
  {
    var inner := w1 + body + w2;
    var core := JsFence + inner + Fence;
    assert pre + JsFence + w1 + body + w2 + Fence + post == pre + core + post;
    assert core[..|JsFence|] == JsFence && core[|core| - |Fence|..] == Fence;
    assert core[|JsFence|..|core| - |Fence|] == inner;
    TrimPadded(w1, body, w2);
    StrictFencedReply(pre, core, post);
  }

  /** The strict pattern's `\s*` may match nothing, so a tag that merely
      begins with `javascript` (say `javascriptreact`) matches the strict
      pattern and the rest of the tag is kept as the first line of code. */
  lemma StrictTierKeepsTagRest(tail: string, w1: string, body: string, w2: string)
    requires tail != [] && WordIn(tail, 0, |tail|)
    requires AllWs(w1) && AllWs(w2)
    requires body != [] && IsTrimmed(body)
    ensures ExtractCode(JsFence + tail + w1 + body + w2 + Fence) == Success(tail + w1 + body)
  {
    var code := tail + w1 + body;
    var core := JsFence + (code + w2) + Fence;
    assert JsFence + tail + w1 + body + w2 + Fence == [] + core + [];
    assert core[..|JsFence|] == JsFence && core[|core| - |Fence|..] == Fence;
    assert core[|JsFence|..|core| - |Fence|] == code + w2;
    assert code[0] == tail[0] && code[|code| - 1] == body[|body| - 1];
    TrimPadded([], code, w2);
    assert [] + code + w2 == code + w2;
    StrictFencedReply([], core, []);
  }

  /** A reply that is a fenced text not carrying the `javascript` tag, with
      whitespace around it, extracts to the trimmed text between its tag
      (the longest word run after the opening fence) and the closing fence,
      if that is non-empty. */
  lemma GenericFencedReply(pre: string, core: string, post: string, tagEnd: int)
    requires AllWs(pre) && AllWs(post)
    requires |core| >= 2 * |Fence| && HasPrefix(core, Fence) && HasSuffix(core, Fence)
    requires !HasPrefix(core, JsFence)
    requires |Fence| <= tagEnd <= |core| - |Fence| && WordIn(core, |Fence|, tagEnd)
    requires tagEnd == |core| - |Fence| || !IsWord(core[tagEnd])
    requires Trim(core[tagEnd..|core| - |Fence|]) != []
    ensures ExtractCode(pre + core + post) == Success(Trim(core[tagEnd..|core| - |Fence|]))
  {
    TrimFenced(pre, core, post);
    StrictMatchesFenced(core);
    GenericMatchesAfterTag(core, tagEnd);
    var g := GenericMatch(core);
    var p1, p2 :| GenericBest(core, p1, p2, g.value.lo, g.value.hi);
    GenericTier(pre + core + post, p1, p2, g.value.lo, g.value.hi);
  }

  /** Round trip of the generic tier: a trimmed, non-empty body in a fence
      whose tag (possibly empty) is not the `javascript` tag, separated from
      the tag by whitespace, extracts to exactly that body. */
  lemma GenericRoundTrip(pre: string, tag: string, w1: string, body: string, w2: string, post: string)
    requires AllWs(pre) && AllWs(w1) && AllWs(w2) && AllWs(post)
    requires WordIn(tag, 0, |tag|) && !HasPrefix(tag, JsFence[|Fence|..])
    requires w1 != []
    requires body != [] && IsTrimmed(body)
    ensures ExtractCode(pre + Fence + tag + w1 + body + w2 + Fence + post) == Success(body)
  {
    var inner := w1 + body + w2;
    var core := Fence + tag + inner + Fence;
    assert pre + Fence + tag + w1 + body + w2 + Fence + post == pre + core + post;
    assert core[..|Fence|] == Fence && core[|core| - |Fence|..] == Fence;
    var tagEnd := |Fence| + |tag|;
    assert core[tagEnd] == w1[0];
    assert WordIn(core, |Fence|, tagEnd) by {
      assert core[|Fence|..tagEnd] == tag;
    }
    assert |tag| >= 10 ==> core[|Fence|..|JsFence|] == tag[..|JsFence| - |Fence|];
    NotJsFenced(core, tagEnd);
    assert core[tagEnd..|core| - |Fence|] == inner;
    TrimPadded(w1, body, w2);
    GenericFencedReply(pre, core, post, tagEnd);
  }

  /** A fenced reply in which neither pattern captures anything comes back
      as its trimmed self. */
  lemma EmptyFencedReply(pre: string, core: string, post: string, tagEnd: int)
    requires AllWs(pre) && AllWs(post)
    requires |core| >= 2 * |Fence| && HasPrefix(core, Fence) && HasSuffix(core, Fence)
    requires |core| >= |JsFence| + |Fence| && HasPrefix(core, JsFence) ==>
               Trim(core[|JsFence|..|core| - |Fence|]) == []
    requires |Fence| <= tagEnd <= |core| - |Fence| && WordIn(core, |Fence|, tagEnd)
    requires tagEnd == |core| - |Fence| || !IsWord(core[tagEnd])
    requires Trim(core[tagEnd..|core| - |Fence|]) == []
    ensures ExtractCode(pre + core + post) == Success(core)
  {
    TrimFenced(pre, core, post);
    StrictMatchesFenced(core);
    var s := StrictMatch(core);
    forall i, j | StrictBest(core, i, j) ensures i == j {
      StrictBestUnique(core, i, j, s.value.lo, s.value.hi);
    }
    GenericMatchesAfterTag(core, tagEnd);
    var g := GenericMatch(core);
    forall p1, p2, p3, p4 | GenericBest(core, p1, p2, p3, p4) ensures p3 == p4 {
      var q1, q2 :| GenericBest(core, q1, q2, g.value.lo, g.value.hi);
      GenericBestUnique(core, p1, p2, p3, p4, q1, q2, g.value.lo, g.value.hi);
    }
    FencedVerbatimTier(pre + core + post);
  }

  /** An empty fence (only a tag and whitespace between the fences) yields
      nothing in either tier, so the trimmed reply comes back verbatim, fences
      included, instead of being rejected. The tag must be exactly
      `javascript` or not begin with it. */
  lemma EmptyFenceVerbatim(pre: string, tag: string, w: string, post: string)
    requires AllWs(pre) && AllWs(w) && AllWs(post)
    requires WordIn(tag, 0, |tag|)
    requires tag == JsFence[|Fence|..] || !HasPrefix(tag, JsFence[|Fence|..])
    ensures ExtractCode(pre + Fence + tag + w + Fence + post) == Success(Fence + tag + w + Fence)
  {
    var core := Fence + tag + w + Fence;
    assert pre + Fence + tag + w + Fence + post == pre + core + post;
    assert core[..|Fence|] == Fence && core[|core| - |Fence|..] == Fence;
    var tagEnd := |Fence| + |tag|;
    assert !IsWord(core[tagEnd]) by {
      if w == [] {
        assert core[tagEnd] == Fence[0];
      } else {
        assert core[tagEnd] == w[0];
      }
    }
    assert WordIn(core, |Fence|, tagEnd) by {
      assert core[|Fence|..tagEnd] == tag;
    }
    assert core[tagEnd..|core| - |Fence|] == w;
    TrimPadded(w, [], []);
    assert w + [] + [] == w;
    EmptyFenceStrict(tag, w, core, tagEnd);
    EmptyFencedReply(pre, core, post, tagEnd);
  }

  /** The strict pattern captures nothing in an empty fence. */
  lemma EmptyFenceStrict(tag: string, w: string, core: string, tagEnd: int)
    requires AllWs(w) && WordIn(tag, 0, |tag|)
    requires tag == JsFence[|Fence|..] || !HasPrefix(tag, JsFence[|Fence|..])
    requires core == Fence + tag + w + Fence && tagEnd == |Fence| + |tag|
    requires !IsWord(core[tagEnd]) && WordIn(core, |Fence|, tagEnd)
    ensures |core| >= |JsFence| + |Fence| && HasPrefix(core, JsFence) ==>
              Trim(core[|JsFence|..|core| - |Fence|]) == []
  {
    if tag == JsFence[|Fence|..] {
      assert core[|JsFence|..|core| - |Fence|] == w;
    } else {
      assert |tag| >= 10 ==> core[|Fence|..|JsFence|] == tag[..|JsFence| - |Fence|];
      assert HasPrefix(core, Fence);
      NotJsFenced(core, tagEnd);
    }
  }
}
