/** The title/content split of `generateGeminiContent` in `gemini.js`: the generated text is
    searched with the regular expression `/제목:\s*(.+)/`; the first match's group, trimmed,
    is the title, and the text with that one match removed, trimmed, is the content. The
    generation call is an input: the text it returns, or its failure. */
module Gemini {
  import opened Util

  /** `제목:` ("title:"). */
  const TitleMarker: string := "제목:"
  /** `제목 없음` ("no title"). */
  const NoTitle: string := "제목 없음"

  /** What `.` in a JavaScript regular expression matches. */
  predicate NotLineTerminator(c: char) {
    !IsLineTerminator(c)
  }

  /** The meaning of the regular expression: `text[p..e]` matches it with the group
      `text[c..e]` — `제목:` at `p`, whitespace up to `c`, then at least one character other
      than a line terminator up to `e`. */
  predicate MatchAt(text: string, p: nat, c: nat, e: nat) {
    && p + |TitleMarker| <= c < e <= |text|
    && text[p..p + |TitleMarker|] == TitleMarker
    && (forall k :: p + |TitleMarker| <= k < c ==> IsJsSpace(text[k]))
    && (forall k :: c <= k < e ==> NotLineTerminator(text[k]))
  }

  /** The largest position in `lo..hi` that is not a line terminator. */
  function LastNonTerminator(text: string, lo: nat, hi: nat): (r: Option<nat>)
    requires hi <= |text|
    ensures r.Some? ==>
      lo <= r.value < hi && NotLineTerminator(text[r.value]) && forall k :: r.value < k < hi ==> IsLineTerminator(text[k])
    ensures r.None? ==> forall k :: lo <= k < hi ==> IsLineTerminator(text[k])
    decreases hi
  {
    if hi <= lo then None
    else if NotLineTerminator(text[hi - 1]) then Some(hi - 1)
    else LastNonTerminator(text, lo, hi - 1)
  }

  /** Where `(.+)` starts when the backtracking engine matches `\s*(.+)` from `q`: `\s*`
      takes the longest run of whitespace and gives characters back only while `.+` cannot
      start. It finds a start exactly when some character after `q` is not a line
      terminator, and no longer run of whitespace would have left `.+` a start. */
  function GroupStart(text: string, q: nat): (r: Option<nat>)
    requires q <= |text|
    ensures r.Some? ==>
      && q <= r.value < |text| && NotLineTerminator(text[r.value])
      && (forall k :: q <= k < r.value ==> IsJsSpace(text[k]))
      && (forall c' :: r.value < c' < |text| && (forall k :: q <= k < c' ==> IsJsSpace(text[k])) ==>
            IsLineTerminator(text[c']))
    ensures r.None? ==> forall k :: q <= k < |text| ==> IsLineTerminator(text[k])
  {
    var t := text[q..];
    var w := TrimStart(t, IsJsSpace);
    assert forall k :: q <= k < q + w ==> IsJsSpace(text[k]) by {
      forall k | q <= k < q + w ensures IsJsSpace(text[k]) {
        assert text[k] == t[k - q];
      }
    }
    if q + w < |text| then
      assert !IsJsSpace(text[q + w]) by { assert text[q + w] == t[w]; }
      LineTerminatorIsJsSpace(text[q + w]);
      Some(q + w)
    else
      LastNonTerminator(text, q, q + w)
  }

  /** Where `.+` stops: at the next line terminator, or at the end of the text. */
  function LineEnd(text: string, c: nat): (e: nat)
    requires c < |text| && NotLineTerminator(text[c])
    ensures c < e <= |text|
    ensures forall k :: c <= k < e ==> NotLineTerminator(text[k])
    ensures e == |text| || IsLineTerminator(text[e])
  {
    var t := text[c..];
    var n := TrimStart(t, NotLineTerminator);
    assert t[0] == text[c];
    assert forall k :: c <= k < c + n ==> NotLineTerminator(text[k]) by {
      forall k | c <= k < c + n ensures NotLineTerminator(text[k]) {
        assert text[k] == t[k - c];
      }
    }
    assert c + n < |text| ==> text[c + n] == t[n];
    c + n
  }

  /** The group of `\s*(.+)` matched from `q`: its start and end. */
  function RestMatch(text: string, q: nat): (r: Option<(nat, nat)>)
    requires q <= |text|
    ensures r.Some? ==> q <= r.value.0 < r.value.1 <= |text|
  {
    match GroupStart(text, q)
    case None => None
    case Some(c) => Some((c, LineEnd(text, c)))
  }

  /** The first match at or after `p`: the position of `제목:`, and the group's start and end.
      The engine tries each start position in turn. */
  function FirstMatch(text: string, p: nat): (r: Option<(nat, nat, nat)>)
    ensures r.Some? ==> p <= r.value.0 && r.value.0 + |TitleMarker| <= r.value.1 <= r.value.2 <= |text|
    decreases |text| - p
  {
    if p + |TitleMarker| > |text| then None
    else if text[p..p + |TitleMarker|] == TitleMarker && RestMatch(text, p + |TitleMarker|).Some? then
      var (c, e) := RestMatch(text, p + |TitleMarker|).value;
      Some((p, c, e))
    else FirstMatch(text, p + 1)
  }

  /** `FirstMatch` is the leftmost match with the engine's choices: it is a match, no match
      starts earlier, its group cannot start later, and it runs to the end of its line;
      when there is none, the expression matches nowhere. */
  lemma {:induction false} FirstMatchSpec(text: string, p: nat)
    ensures FirstMatch(text, p).Some? ==>
      var (s, c, e) := FirstMatch(text, p).value;
      && p <= s
      && MatchAt(text, s, c, e)
      && (forall p', c', e' :: p <= p' < s ==> !MatchAt(text, p', c', e'))
      && (forall c' :: c < c' < |text| && (forall k :: s + |TitleMarker| <= k < c' ==> IsJsSpace(text[k])) ==>
            IsLineTerminator(text[c']))
      && (e == |text| || IsLineTerminator(text[e]))
    ensures FirstMatch(text, p).None? ==> forall p', c', e' :: p <= p' ==> !MatchAt(text, p', c', e')
    decreases |text| - p
  {
    var q := p + |TitleMarker|;
    if q > |text| {
    } else if text[p..q] == TitleMarker && RestMatch(text, q).Some? {
      FoundAt(text, p);
    } else {
      FirstMatchSpec(text, p + 1);
      NoMatchAt(text, p);
      var r := FirstMatch(text, p + 1);
      assert FirstMatch(text, p) == r;
      if r.Some? {
        var (s, c, e) := r.value;
        forall p', c', e' | p <= p' < s
          ensures !MatchAt(text, p', c', e')
        {
          if p' > p {
            assert p + 1 <= p' < s;
          }
        }
      } else {
        forall p', c', e' | p <= p'
          ensures !MatchAt(text, p', c', e')
        {
          if p' > p {
            assert p + 1 <= p';
          }
        }
      }
    }
  }

  /** Where the engine finds a match at the first position it tries. */
  lemma FoundAt(text: string, p: nat)
    requires p + |TitleMarker| <= |text| && text[p..p + |TitleMarker|] == TitleMarker
    requires RestMatch(text, p + |TitleMarker|).Some?
    ensures FirstMatch(text, p).Some? && FirstMatch(text, p).value.0 == p
    ensures var (s, c, e) := FirstMatch(text, p).value;
      && MatchAt(text, s, c, e)
      && (forall c' :: c < c' < |text| && (forall k :: s + |TitleMarker| <= k < c' ==> IsJsSpace(text[k])) ==>
            IsLineTerminator(text[c']))
      && (e == |text| || IsLineTerminator(text[e]))
  {
  }

  /** Where the engine finds no match, the expression has none. */
  lemma NoMatchAt(text: string, p: nat)
    requires p + |TitleMarker| > |text| || text[p..p + |TitleMarker|] != TitleMarker
      || RestMatch(text, p + |TitleMarker|).None?
    ensures forall c, e :: !MatchAt(text, p, c, e)
  {
    forall c: nat, e: nat
      ensures !MatchAt(text, p, c, e)
    {
      if p + |TitleMarker| <= c < e <= |text| && text[p..p + |TitleMarker|] == TitleMarker {
        assert IsLineTerminator(text[c]);
      }
    }
  }

  /** The title and the content of a generated text. */
  function SplitTitle(text: string): (string, string) {
    match FirstMatch(text, 0)
    case None => (NoTitle, JsTrim(text))
    case Some((p, c, e)) => (JsTrim(text[c..e]), JsTrim(text[..p] + text[e..]))
  }

  /** With no match the title is `제목 없음` and the content the whole text, trimmed; with a
      match the title is one line of the text without its surrounding whitespace, and the
      content is the text with exactly that match cut out, trimmed. */
  lemma SplitTitleSpec(text: string)
    ensures FirstMatch(text, 0).None? ==>
      (forall p, c, e :: !MatchAt(text, p, c, e)) && SplitTitle(text) == (NoTitle, JsTrim(text))
    ensures FirstMatch(text, 0).Some? ==>
      var (p, c, e) := FirstMatch(text, 0).value;
      && MatchAt(text, p, c, e)
      && SplitTitle(text).0 == JsTrim(text[c..e])
      && (forall k :: 0 <= k < |SplitTitle(text).0| ==> NotLineTerminator(SplitTitle(text).0[k]))
      && SplitTitle(text).1 == JsTrim(text[..p] + text[e..])
  {
    FirstMatchSpec(text, 0);
    if FirstMatch(text, 0).Some? {
      var (p, c, e) := FirstMatch(text, 0).value;
      var line := text[c..e];
      assert forall k :: 0 <= k < |line| ==> line[k] == text[c + k];
      TrimKeepsAll(line, IsJsSpace, NotLineTerminator);
    }
  }

  /** The replace is not global: a later `제목:` in the text is still in the content. */
  lemma LaterMarkersSurvive(text: string, j: nat)
    requires FirstMatch(text, 0).Some? && FirstMatch(text, 0).value.2 <= j
    requires OccursAt(text, TitleMarker, j)
    ensures Contains(SplitTitle(text).1, TitleMarker)
  {
    var (p, c, e) := FirstMatch(text, 0).value;
    var rest := text[..p] + text[e..];
    var j' := p + (j - e);
    CutKeepsOccurrence(text, p, e, TitleMarker, j);
    TrimKeepsOccurrence(rest, IsJsSpace, TitleMarker, j');
    var i := TrimStart(rest, IsJsSpace);
    assert OccursAt(JsTrim(rest), TitleMarker, j' - i);
  }

  /** What `generateGeminiContent` gives back. */
  datatype GeminiResult = Threw | NullResult | Generated(title: string, content: string)

  /** `generateGeminiContent`: a missing or empty key throws before any call; a failing call
      gives `null`; otherwise the title and content of the generated text. */
  function GenerateGeminiContent(apiKey: Option<string>, reply: Option<string>): (r: GeminiResult)
    ensures r.Threw? <==> !TruthyText(apiKey)
    ensures r.NullResult? <==> TruthyText(apiKey) && reply.None?
    ensures r.Generated? ==> reply.Some? && (r.title, r.content) == SplitTitle(reply.value)
  {
    if !TruthyText(apiKey) then Threw
    else match reply
      case None => NullResult
      case Some(text) =>
        var (title, content) := SplitTitle(text);
        Generated(title, content)
  }
}
