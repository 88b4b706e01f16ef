/** `POST /api/scripts/updatePrompt`: it rewrites the prompt template in the text of
    `gemini.js`. The template is found with the regular expression
    ``/const prompt = `([\s\S]*?)키워드: \${keyword}\s*`;/`` and replaced by
    `` const prompt = `<trimmed prompt>\n\n키워드: ${keyword}`; ``. Reading and writing the
    file are inputs and outputs: the file's text, or its absence, and the text written. */
module UpdatePrompt {
  import opened Util

  const Head: string := "const prompt = `"
  /** The last line of the template, `${keyword}` taken literally. */
  const KeywordLine: string := "키워드: ${keyword}"
  const Closer: string := "`;"

  // ---------------------------------------------------------------------------
  // The regular expression
  // ---------------------------------------------------------------------------

  /** The part of the expression after the group: the keyword line at `m`, whitespace,
      and the closing `` `; `` just before `e`. */
  predicate TailAt(text: string, m: nat, e: nat) {
    && m + |KeywordLine| + |Closer| <= e <= |text|
    && OccursAt(text, KeywordLine, m)
    && (forall k :: m + |KeywordLine| <= k < e - |Closer| ==> IsJsSpace(text[k]))
    && OccursAt(text, Closer, e - |Closer|)
  }

  /** The meaning of the expression: `text[s..e]` matches it with the lazy group ending at
      `m` — the head at `s`, anything up to `m`, then the part after the group. */
  predicate PromptMatchAt(text: string, s: nat, m: nat, e: nat) {
    s + |Head| <= m && OccursAt(text, Head, s) && TailAt(text, m, e)
  }

  /** The end of the match when the group ends at `m`: the keyword line, the longest run of
      whitespace, and the closer must follow. */
  function TailMatch(text: string, m: nat): (r: Option<nat>)
    ensures r.Some? ==> m + |KeywordLine| + |Closer| <= r.value <= |text|
  {
    if OccursAt(text, KeywordLine, m) then
      var t := m + |KeywordLine| + TrimStart(text[m + |KeywordLine|..], IsJsSpace);
      if OccursAt(text, Closer, t) then Some(t + |Closer|) else None
    else None
  }

  /** What `TailMatch` finds is a way for the text to go on after a group ending at `m`. */
  lemma TailMatchSound(text: string, m: nat)
    requires TailMatch(text, m).Some?
    ensures TailAt(text, m, TailMatch(text, m).value)
  {
    var q := m + |KeywordLine|;
    var rest := text[q..];
    var w := TrimStart(rest, IsJsSpace);
    forall k | q <= k < q + w
      ensures IsJsSpace(text[k])
    {
      assert text[k] == rest[k - q];
    }
  }

  /** It is the only way: the whitespace run cannot stop earlier or later, because `` ` ``
      is not whitespace. */
  lemma TailMatchUnique(text: string, m: nat, e: nat)
    requires TailAt(text, m, e)
    ensures TailMatch(text, m) == Some(e)
  {
    var q := m + |KeywordLine|;
    var rest := text[q..];
    var t := e - |Closer|;
    assert text[t..t + |Closer|] == Closer;
    assert text[t] == '`';
    assert forall k :: 0 <= k < t - q ==> rest[k] == text[q + k];
    assert rest[t - q] == text[t];
  }

  /** The lazy group: the first end at or after `m` that lets the rest match. */
  function LazyMatch(text: string, m: nat): (r: Option<(nat, nat)>)
    ensures r.Some? ==> m <= r.value.0 && TailMatch(text, r.value.0) == Some(r.value.1)
    decreases |text| + 1 - m
  {
    if m > |text| then None
    else match TailMatch(text, m)
      case Some(e) => Some((m, e))
      case None => LazyMatch(text, m + 1)
  }

  /** No end before the one `LazyMatch` finds lets the rest match. */
  lemma {:induction false} LazyMatchFirst(text: string, m: nat)
    requires LazyMatch(text, m).Some?
    ensures forall m' :: m <= m' < LazyMatch(text, m).value.0 ==> TailMatch(text, m').None?
    decreases |text| + 1 - m
  {
    if TailMatch(text, m).None? {
      LazyMatchFirst(text, m + 1);
    }
  }

  /** When `LazyMatch` finds no end, no end lets the rest match. */
  lemma {:induction false} LazyMatchNone(text: string, m: nat)
    requires LazyMatch(text, m).None?
    ensures forall m' :: m <= m' ==> TailMatch(text, m').None?
    decreases |text| + 1 - m
  {
    if m <= |text| {
      LazyMatchNone(text, m + 1);
    }
  }

  /** The first match at or after `s`: the head's position, the group's end and the
      match's end. The engine tries each start in turn. */
  function FindMatch(text: string, s: nat): (r: Option<(nat, nat, nat)>)
    ensures r.Some? ==>
      && s <= r.value.0 && r.value.0 + |Head| <= r.value.1 && r.value.2 <= |text|
      && r.value.1 <= r.value.2
      && OccursAt(text, Head, r.value.0) && TailMatch(text, r.value.1) == Some(r.value.2)
    decreases |text| + 1 - s
  {
    if s > |text| then None
    else if OccursAt(text, Head, s) && LazyMatch(text, s + |Head|).Some? then
      var (m, e) := LazyMatch(text, s + |Head|).value;
      Some((s, m, e))
    else FindMatch(text, s + 1)
  }

  /** No match at all starts at `s` when the engine finds none there. */
  lemma NoMatchFrom(text: string, s: nat)
    requires !OccursAt(text, Head, s) || LazyMatch(text, s + |Head|).None?
    ensures forall m: nat, e: nat :: !PromptMatchAt(text, s, m, e)
  {
    forall m: nat, e: nat
      ensures !PromptMatchAt(text, s, m, e)
    {
      if s + |Head| <= m && OccursAt(text, Head, s) {
        LazyMatchNone(text, s + |Head|);
        if TailAt(text, m, e) {
          TailMatchUnique(text, m, e);
        }
      }
    }
  }

  /** `FindMatch` is the match the expression makes: a match, none starting earlier, and
      none with a shorter group from the same start; with no result there is no match. */
  lemma {:induction false} FindMatchSpec(text: string, s0: nat)
    ensures FindMatch(text, s0).Some? ==>
      var (s, m, e) := FindMatch(text, s0).value;
      && PromptMatchAt(text, s, m, e)
      && (forall s': nat, m': nat, e': nat :: s0 <= s' < s ==> !PromptMatchAt(text, s', m', e'))
      && (forall m': nat, e': nat :: m' < m ==> !PromptMatchAt(text, s, m', e'))
    ensures FindMatch(text, s0).None? ==> forall s': nat, m': nat, e': nat :: s0 <= s' ==> !PromptMatchAt(text, s', m', e')
    decreases |text| + 1 - s0
  {
    if s0 > |text| {
      forall s': nat, m': nat, e': nat | s0 <= s'
        ensures !PromptMatchAt(text, s', m', e')
      {
      }
    } else if OccursAt(text, Head, s0) && LazyMatch(text, s0 + |Head|).Some? {
      var (m, e) := LazyMatch(text, s0 + |Head|).value;
      TailMatchSound(text, m);
      LazyMatchFirst(text, s0 + |Head|);
      forall m': nat, e': nat | m' < m
        ensures !PromptMatchAt(text, s0, m', e')
      {
        if s0 + |Head| <= m' && TailAt(text, m', e') {
          TailMatchUnique(text, m', e');
        }
      }
    } else {
      FindMatchSpec(text, s0 + 1);
      NoMatchFrom(text, s0);
      var r := FindMatch(text, s0 + 1);
      assert FindMatch(text, s0) == r;
      if r.Some? {
        var (s, m, e) := r.value;
        forall s': nat, m': nat, e': nat | s0 <= s' < s
          ensures !PromptMatchAt(text, s', m', e')
        {
          if s' > s0 {
            assert s0 + 1 <= s' < s;
          }
        }
      } else {
        forall s': nat, m': nat, e': nat | s0 <= s'
          ensures !PromptMatchAt(text, s', m', e')
        {
          if s' > s0 {
            assert s0 + 1 <= s';
          }
        }
      }
    }
  }

  /** Where the expression matches, the engine finds a match. */
  lemma MatchFound(text: string, s: nat, m: nat, e: nat)
    requires PromptMatchAt(text, s, m, e)
    ensures FindMatch(text, 0).Some?
  {
    FindMatchSpec(text, 0);
  }

  // ---------------------------------------------------------------------------
  // The replacement string
  // ---------------------------------------------------------------------------

  /** The fixed end of every new template: a blank line, the keyword line and the closer. */
  const TemplateEnd: string := "\n\n" + KeywordLine + Closer

  /** The new template for a prompt. */
  function NewTemplate(prompt: string): string {
    Head + JsTrim(prompt) + TemplateEnd
  }

  function DigitOf(c: char): nat
    requires '0' <= c <= '9'
  {
    (c as int) - ('0' as int)
  }

  /** `GetSubstitution` of section 22.1.3.19.1 of ECMA-262 (2023) for a pattern with one
      capture group and no named groups: how `String.prototype.replace` reads `$` in a
      replacement string. `$$` is `$`; `` $& ``, `` $` `` and `$'` are the match, the text
      before it and the text after it; `$1` and `$01` are the group; a two-digit index above
      1 is read as one digit followed by a literal digit; anything else stays as written. */
  function Substitute(t: string, matched: string, before: string, after: string, group: string): string
    decreases |t|
  {
    if t == [] then []
    else if t[0] != '$' || |t| == 1 then [t[0]] + Substitute(t[1..], matched, before, after, group)
    else
      var c := t[1];
      if c == '$' then "$" + Substitute(t[2..], matched, before, after, group)
      else if c == '&' then matched + Substitute(t[2..], matched, before, after, group)
      else if c == '`' then before + Substitute(t[2..], matched, before, after, group)
      else if c == '\'' then after + Substitute(t[2..], matched, before, after, group)
      else if '0' <= c <= '9' then
        if |t| >= 3 && '0' <= t[2] <= '9' && 10 * DigitOf(c) + DigitOf(t[2]) <= 1 then
          (if DigitOf(t[2]) == 1 then group else t[..3]) + Substitute(t[3..], matched, before, after, group)
        else
          (if DigitOf(c) == 1 then group else t[..2]) + Substitute(t[2..], matched, before, after, group)
      else "$" + Substitute(t[1..], matched, before, after, group)
  }

  /** A replacement string without `$` is inserted as it is. */
  lemma {:induction false} SubstituteNoDollar(t: string, matched: string, before: string, after: string, group: string)
    requires '$' !in t
    ensures Substitute(t, matched, before, after, group) == t
    decreases |t|
  {
    if t != [] {
      assert t[0] != '$';
      assert '$' !in t[1..];
      SubstituteNoDollar(t[1..], matched, before, after, group);
    }
  }

  /** A character other than `$` is copied. */
  lemma SubstitutePlain(t: string, matched: string, before: string, after: string, group: string)
    requires t != [] && t[0] != '$'
    ensures Substitute(t, matched, before, after, group) == [t[0]] + Substitute(t[1..], matched, before, after, group)
  {
  }

  /** `$$` is one `$`. */
  lemma SubstituteDollarPair(t: string, matched: string, before: string, after: string, group: string)
    requires |t| >= 2 && t[0] == '$' && t[1] == '$'
    ensures Substitute(t, matched, before, after, group) == "$" + Substitute(t[2..], matched, before, after, group)
  {
  }

  /** A `$` before a character that starts no pattern is kept. */
  lemma SubstituteLoneDollar(t: string, matched: string, before: string, after: string, group: string)
    requires |t| >= 2 && t[0] == '$' && t[1] !in "$&`'0123456789"
    ensures Substitute(t, matched, before, after, group) == "$" + Substitute(t[1..], matched, before, after, group)
  {
  }

  /** A `$`-free start is copied and the rest substituted on its own. */
  lemma {:induction false} SubstituteAppend(a: string, b: string, matched: string, before: string, after: string, group: string)
    requires '$' !in a
    ensures Substitute(a + b, matched, before, after, group) == a + Substitute(b, matched, before, after, group)
    decreases |a|
  {
    if a != [] {
      var ab := a + b;
      assert ab[0] == a[0];
      assert ab[1..] == a[1..] + b;
      assert '$' !in a[1..];
      SubstitutePlain(ab, matched, before, after, group);
      SubstituteAppend(a[1..], b, matched, before, after, group);
      calc {
        Substitute(ab, matched, before, after, group);
        [a[0]] + Substitute(a[1..] + b, matched, before, after, group);
        [a[0]] + (a[1..] + Substitute(b, matched, before, after, group));
        { assert a == [a[0]] + a[1..]; }
        a + Substitute(b, matched, before, after, group);
      }
    } else {
      assert a + b == b;
    }
  }

  /** A `$` followed by `{` starts no pattern, so text of that shape is kept. */
  lemma SubstituteKeepsDollarBrace(a: string, b: string, matched: string, before: string, after: string, group: string)
    requires '$' !in a && '$' !in b && b != [] && b[0] == '{'
    ensures Substitute(a + ("$" + b), matched, before, after, group) == a + ("$" + b)
  {
    var d := "$" + b;
    SubstituteAppend(a, d, matched, before, after, group);
    assert d[1..] == b;
    SubstituteLoneDollar(d, matched, before, after, group);
    SubstituteNoDollar(b, matched, before, after, group);
  }

  /** The fixed end of the template comes through: its `${keyword}` is a `$` that starts
      no pattern. */
  lemma TemplateEndKept(matched: string, before: string, after: string, group: string)
    ensures Substitute(TemplateEnd, matched, before, after, group) == TemplateEnd
  {
    var a := "\n\n키워드: ";
    var b := "{keyword}`;";
    assert TemplateEnd == a + ("$" + b);
    SubstituteKeepsDollarBrace(a, b, matched, before, after, group);
  }

  // ---------------------------------------------------------------------------
  // The route
  // ---------------------------------------------------------------------------

  /** The `prompt` field of the request body: missing or null, some other JSON type, or a string. */
  datatype PromptArg = NoPrompt | NotAString | PromptText(text: string)

  /** The response status and the text written to `gemini.js`, if any. */
  datatype UpdateResult = UpdateResult(status: nat, written: Option<string>)

  /** The route up to the replacement: 400 for a missing, empty or non-string prompt, 404
      when the file does not exist, 400 when the template is not found. */
  function Checked(prompt: PromptArg, file: Option<string>): (r: Option<UpdateResult>)
    ensures r.None? <==> prompt.PromptText? && prompt.text != "" && file.Some? && FindMatch(file.value, 0).Some?
    ensures r.Some? ==> r.value.written.None? && r.value.status in {400, 404}
  {
    if !prompt.PromptText? || prompt.text == "" then Some(UpdateResult(400, None))
    else if file.None? then Some(UpdateResult(404, None))
    else if FindMatch(file.value, 0).None? then Some(UpdateResult(400, None))
    else None
  }

  /** `scriptContent.replace(promptRegex, updatedPrompt)` as written: the replacement is a
      string, so its `$` patterns are read, including any in the user's prompt. */
  function ReplaceAsWritten(text: string, prompt: string): string
    requires FindMatch(text, 0).Some?
  {
    var (s, m, e) := FindMatch(text, 0).value;
    var replacement := Substitute(NewTemplate(prompt), text[s..e], text[..s], text[e..], text[s + |Head|..m]);
    text[..s] + replacement + text[e..]
  }

  /** The replacement as intended: the new template goes in literally. */
  function ReplaceIntended(text: string, prompt: string): string
    requires FindMatch(text, 0).Some?
  {
    var (s, m, e) := FindMatch(text, 0).value;
    text[..s] + NewTemplate(prompt) + text[e..]
  }

  /** The route as written. */
  function UpdatePromptAsWritten(prompt: PromptArg, file: Option<string>): (r: UpdateResult)
    ensures Checked(prompt, file).Some? ==> r == Checked(prompt, file).value
    ensures Checked(prompt, file).None? ==> r == UpdateResult(200, Some(ReplaceAsWritten(file.value, prompt.text)))
  {
    match Checked(prompt, file)
    case Some(failure) => failure
    case None => UpdateResult(200, Some(ReplaceAsWritten(file.value, prompt.text)))
  }

  /** The route as intended. */
  function UpdatePromptIntended(prompt: PromptArg, file: Option<string>): (r: UpdateResult)
    ensures Checked(prompt, file).Some? ==> r == Checked(prompt, file).value
    ensures Checked(prompt, file).None? ==> r == UpdateResult(200, Some(ReplaceIntended(file.value, prompt.text)))
  {
    match Checked(prompt, file)
    case Some(failure) => failure
    case None => UpdateResult(200, Some(ReplaceIntended(file.value, prompt.text)))
  }

  /** At `s` stands a template for the trimmed prompt `p`, in the form the route writes:
      a match of the expression whose group is `p` and the blank line. */
  predicate TemplateAt(text: string, s: nat, p: string) {
    PromptMatchAt(text, s, s + |Head| + |p| + 2, s + |Head| + |p| + |TemplateEnd|)
  }

  /** The blank line, the keyword line and the closer, in that order. */
  lemma TemplateEndShape()
    ensures OccursAt(TemplateEnd, KeywordLine, 2) && OccursAt(TemplateEnd, Closer, 2 + |KeywordLine|)
  {
    OccursInMiddle("\n\n", KeywordLine, Closer);
    OccursInMiddle("\n\n" + KeywordLine, Closer, []);
    assert "\n\n" + KeywordLine + Closer + [] == TemplateEnd;
  }

  /** A new template put between any two texts stands where it was put, in the form
      `TemplateAt` describes. */
  lemma NewTemplateAt(pre: string, prompt: string, post: string)
    ensures TemplateAt(pre + NewTemplate(prompt) + post, |pre|, JsTrim(prompt))
  {
    var p := JsTrim(prompt);
    var t := NewTemplate(prompt);
    var out := pre + t + post;
    var s := |pre|;
    var q := s + |Head| + |p|;
    var m := s + |Head| + |p| + 2;
    var e := s + |Head| + |p| + |TemplateEnd|;
    assert t == Head + p + TemplateEnd;
    ThreePiecesOccur(pre, Head, p, TemplateEnd, post);
    TemplateEndShape();
    OccursWithin(out, TemplateEnd, q, KeywordLine, 2, m);
    OccursWithin(out, TemplateEnd, q, Closer, 2 + |KeywordLine|, e - |Closer|);
    assert |TemplateEnd| == 2 + |KeywordLine| + |Closer|;
    assert m + |KeywordLine| == e - |Closer| <= |out|;
    assert TailAt(out, m, e);
    assert PromptMatchAt(out, s, m, e);
  }

  /** So the expression finds a template in the text the route writes. */
  lemma NewTemplateMatches(pre: string, prompt: string, post: string)
    ensures FindMatch(pre + NewTemplate(prompt) + post, 0).Some?
  {
    var p := JsTrim(prompt);
    var out := pre + NewTemplate(prompt) + post;
    NewTemplateAt(pre, prompt, post);
    MatchFound(out, |pre|, |pre| + |Head| + |p| + 2, |pre| + |Head| + |p| + |TemplateEnd|);
  }

  /** With the literal replacement the text around the matched template is kept, and in
      its place stands a template in the form the expression looks for: the trimmed prompt
      right after `` const prompt = ` ``, a blank line, the keyword line and the closer. So
      the file can be updated again. */
  lemma IntendedWritesPrompt(text: string, prompt: string)
    requires FindMatch(text, 0).Some?
    ensures var (s, m, e) := FindMatch(text, 0).value;
      var out := ReplaceIntended(text, prompt);
      var p := JsTrim(prompt);
      var n := |NewTemplate(prompt)|;
      && |out| == s + n + (|text| - e)
      && out[..s] == text[..s]
      && out[s + n..] == text[e..]
      && OccursAt(out, p, s + |Head|)
      && TemplateAt(out, s, p)
      && FindMatch(out, 0).Some?
  {
    var (s, m, e) := FindMatch(text, 0).value;
    var pre, t, post := text[..s], NewTemplate(prompt), text[e..];
    ConcatParts(pre, t, post);
    assert t == Head + JsTrim(prompt) + TemplateEnd;
    ThreePiecesOccur(pre, Head, JsTrim(prompt), TemplateEnd, post);
    NewTemplateAt(pre, prompt, post);
    NewTemplateMatches(pre, prompt, post);
    assert |pre| == s;
  }

  /** A template for a prompt without `$` comes out of `Substitute` as it went in. */
  lemma TemplateKeptWithoutDollar(prompt: string, matched: string, before: string, after: string, group: string)
    requires '$' !in prompt
    ensures Substitute(NewTemplate(prompt), matched, before, after, group) == NewTemplate(prompt)
  {
    var p := JsTrim(prompt);
    assert '$' !in p by {
      TrimKeepsAll(prompt, IsJsSpace, c => c != '$');
    }
    assert '$' !in Head;
    assert '$' !in Head + p;
    SubstituteAppend(Head + p, TemplateEnd, matched, before, after, group);
    TemplateEndKept(matched, before, after, group);
  }

  /** For a prompt without `$` the replacement as written is the intended one. */
  lemma AsWrittenAgreesWithoutDollar(text: string, prompt: string)
    requires FindMatch(text, 0).Some? && '$' !in prompt
    ensures ReplaceAsWritten(text, prompt) == ReplaceIntended(text, prompt)
  {
    var (s, m, e) := FindMatch(text, 0).value;
    TemplateKeptWithoutDollar(prompt, text[s..e], text[..s], text[e..], text[s + |Head|..m]);
  }

  /** So for such a prompt the route as written does what was intended. */
  lemma RouteAgreesWithoutDollar(prompt: PromptArg, file: Option<string>)
    requires prompt.PromptText? && '$' !in prompt.text
    ensures UpdatePromptAsWritten(prompt, file) == UpdatePromptIntended(prompt, file)
  {
    if Checked(prompt, file).None? {
      AsWrittenAgreesWithoutDollar(file.value, prompt.text);
    }
  }

  /** `$$` between a `$`-free start and a text that comes through unchanged is one `$`. */
  lemma DollarPairShortens(h: string, rest: string, matched: string, before: string, after: string, group: string)
    requires '$' !in h && Substitute(rest, matched, before, after, group) == rest
    ensures |Substitute(h + ("$$" + rest), matched, before, after, group)| + 1 == |h + ("$$" + rest)|
  {
    var d := "$$" + rest;
    SubstituteAppend(h, d, matched, before, after, group);
    assert d[0] == '$' && d[1] == '$' && d[2..] == rest;
    SubstituteDollarPair(d, matched, before, after, group);
  }

  /** A template whose trimmed prompt starts with `$$` and has no other `$` comes out of
      `Substitute` one character shorter. */
  lemma TemplateLosesDollar(prompt: string, x: string, matched: string, before: string, after: string, group: string)
    requires JsTrim(prompt) == "$$" + x && '$' !in x
    ensures |Substitute(NewTemplate(prompt), matched, before, after, group)| + 1 == |NewTemplate(prompt)|
  {
    assert NewTemplate(prompt) == Head + ("$$" + (x + TemplateEnd));
    assert '$' !in Head;
    TemplateEndKept(matched, before, after, group);
    SubstituteAppend(x, TemplateEnd, matched, before, after, group);
    DollarPairShortens(Head, x + TemplateEnd, matched, before, after, group);
  }

  /** The discrepancy: a prompt that starts with `$$` and has no other `$` loses one `$`
      on its way into the file, so the text written differs from the intended one. */
  lemma DollarPairCollapses(text: string, prompt: string, x: string)
    requires FindMatch(text, 0).Some?
    requires JsTrim(prompt) == "$$" + x && '$' !in x
    ensures |ReplaceAsWritten(text, prompt)| + 1 == |ReplaceIntended(text, prompt)|
  {
    var (s, m, e) := FindMatch(text, 0).value;
    TemplateLosesDollar(prompt, x, text[s..e], text[..s], text[e..], text[s + |Head|..m]);
  }

  /** The simplest case: the route writes the prompt `$$` as `$`. */
  lemma DollarPairExample(file: Option<string>)
    requires Checked(PromptText("$$"), file).None?
    ensures UpdatePromptAsWritten(PromptText("$$"), file) != UpdatePromptIntended(PromptText("$$"), file)
  {
    TrimKeeps("$$", IsJsSpace);
    assert "$$" == "$$" + [];
    DollarPairCollapses(file.value, "$$", []);
  }
}
