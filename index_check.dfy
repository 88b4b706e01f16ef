/** The "index check" the completed-posts page runs (the naver-check page carries the same
    handler, but its button is commented out): every post is looked up on the search API by
    its title and marked `O` when a result title, with its HTML tags removed, contains the
    post's title, `X` otherwise. The search API and the
    `updateNaverMark` request are outside: the search is a function from the query to its
    reply, and the mark requests are returned in the order they are sent. */
module IndexCheck {
  import opened Util

  /** A post row; the columns the check does not read are carried along untouched. */
  datatype Post = Post(
    id: int, link: Option<string>, title: Option<string>, naverMark: Option<string>,
    writeDate: Option<string>, pyDate: Option<string>, keyword: Option<string>)

  /** Where the first `>` after the `<` at the head of `s` is, when `/<[^>]+>/` matches
      there: only when at least one character comes between. */
  function TagEnd(s: string): (r: Option<nat>)
    requires |s| > 0 && s[0] == '<'
    ensures r.Some? ==> 2 <= r.value < |s| && s[r.value] == '>' && forall k :: 1 <= k < r.value ==> s[k] != '>'
    ensures r.None? ==> (forall k :: 1 <= k < |s| ==> s[k] != '>') || (|s| > 1 && s[1] == '>')
  {
    match IndexOf(s[1..], '>')
    case None =>
      assert forall k :: 1 <= k < |s| ==> s[k] == s[1..][k - 1];
      None
    case Some(k) =>
      if k == 0 then None
      else
        assert forall m :: 1 <= m < k + 1 ==> s[m] == s[1..][..k][m - 1];
        Some(k + 1)
  }

  /** `/<[^>]+>/` matches `s[i..j + 1]`: a `<`, at least one character other than `>`, then
      `>`. */
  predicate TagAt(s: string, i: nat, j: nat) {
    i + 2 <= j < |s| && s[i] == '<' && s[j] == '>' && forall k :: i < k < j ==> s[k] != '>'
  }

  /** `s.replace(/<[^>]+>/g, "")`: scanning left to right, each match is cut out and the scan
      goes on after it. */
  function StripTags(s: string): string
    decreases |s|
  {
    if s == [] then []
    else if s[0] == '<' && TagEnd(s).Some? then StripTags(s[TagEnd(s).value + 1..])
    else [s[0]] + StripTags(s[1..])
  }

  /** Stripping keeps only characters of the text. */
  lemma {:induction false} StripTagsChars(s: string, c: char)
    requires c !in s
    ensures c !in StripTags(s)
    decreases |s|
  {
    if s != [] {
      if s[0] == '<' && TagEnd(s).Some? {
        StripTagsChars(s[TagEnd(s).value + 1..], c);
      } else {
        StripTagsChars(s[1..], c);
      }
    }
  }

  /** A character put in front of a tagless text starts no tag after it. */
  lemma NoTagAfterHead(c: char, rest: string, i: nat, j: nat)
    requires forall i, j :: !TagAt(rest, i, j)
    requires i > 0
    ensures !TagAt([c] + rest, i, j)
  {
    var r := [c] + rest;
    if i + 2 <= j < |r| {
      assert forall k :: i - 1 <= k <= j - 1 ==> rest[k] == r[k + 1];
      assert !TagAt(rest, i - 1, j - 1);
    }
  }

  /** Nor at itself, unless it is `<` and a `>` follows in the text, after a first character
      other than `>`. */
  lemma NoTagAtHead(c: char, rest: string, j: nat)
    requires c != '<' || (|rest| > 0 && rest[0] == '>') || '>' !in rest
    ensures !TagAt([c] + rest, 0, j)
  {
    var r := [c] + rest;
    if 1 <= j < |r| {
      assert r[j] == rest[j - 1] && rest[j - 1] in rest;
      assert r[1] == rest[0];
    }
  }

  /** The replacement is global: no tag is left in the result. */
  lemma {:induction false} StripTagsLeavesNoTag(s: string)
    ensures forall i, j :: !TagAt(StripTags(s), i, j)
    decreases |s|
  {
    if s != [] {
      if s[0] == '<' && TagEnd(s).Some? {
        StripTagsLeavesNoTag(s[TagEnd(s).value + 1..]);
      } else {
        var rest := StripTags(s[1..]);
        StripTagsLeavesNoTag(s[1..]);
        if s[0] == '<' {
          if |s| > 1 && s[1] == '>' {
            assert s[1..] == ['>'] + s[2..];
            assert rest[0] == '>';
          } else {
            assert '>' !in s[1..];
            StripTagsChars(s[1..], '>');
          }
        }
        forall i: nat, j: nat
          ensures !TagAt(StripTags(s), i, j)
        {
          if i > 0 {
            NoTagAfterHead(s[0], rest, i, j);
          } else {
            NoTagAtHead(s[0], rest, j);
          }
        }
      }
    }
  }

  /** A text with no tag comes out unchanged. */
  lemma {:induction false} StripTagsFixesTagless(t: string)
    requires forall i, j :: !TagAt(t, i, j)
    ensures StripTags(t) == t
    decreases |t|
  {
    if t != [] {
      if t[0] == '<' && TagEnd(t).Some? {
        assert TagAt(t, 0, TagEnd(t).value);
      } else {
        var u := t[1..];
        forall i: nat, j: nat
          ensures !TagAt(u, i, j)
        {
          if i + 2 <= j < |u| {
            assert forall k :: i + 1 <= k <= j + 1 ==> t[k] == u[k - 1];
            assert !TagAt(t, i + 1, j + 1);
          }
        }
        StripTagsFixesTagless(u);
        assert t == [t[0]] + u;
      }
    }
  }

  /** Stripping twice is stripping once. */
  lemma StripTagsIdempotent(s: string)
    ensures StripTags(StripTags(s)) == StripTags(s)
  {
    StripTagsLeavesNoTag(s);
    StripTagsFixesTagless(StripTags(s));
  }

  /** A text without `<` has no tag to strip. */
  lemma StripTagsPlain(s: string)
    requires '<' !in s
    ensures StripTags(s) == s
  {
    forall i: nat, j: nat
      ensures !TagAt(s, i, j)
    {
      if i < |s| {
        assert s[i] in s;
      }
    }
    StripTagsFixesTagless(s);
  }

  /** What `/api/search-naver` gives back for a query: a failure that makes `fetch` or
      `res.json()` throw, or a body whose `items` may be missing; a result without a `title`
      is `None`. */
  datatype SearchReply = SearchFailed | Results(items: Option<seq<Option<string>>>)

  /** `data.items.some(searchItem => searchItem.title.replace(...).includes(title))`: `None`
      when it reaches a result without a title, which throws. */
  function AnyIncludes(titles: seq<Option<string>>, title: string): (r: Option<bool>)
    ensures r == Some(true) ==> exists k :: 0 <= k < |titles| && titles[k].Some? && Contains(StripTags(titles[k].value), title)
    ensures r == Some(false) ==> forall k :: 0 <= k < |titles| ==> titles[k].Some? && !Contains(StripTags(titles[k].value), title)
    ensures r.None? <==>
      exists k :: 0 <= k < |titles| && titles[k].None? &&
        (forall j :: 0 <= j < k ==> titles[j].Some? && !Contains(StripTags(titles[j].value), title))
    decreases |titles|
  {
    if titles == [] then Some(false)
    else match titles[0]
      case None => None
      case Some(t) =>
        if Contains(StripTags(t), title) then Some(true)
        else
          var rest := AnyIncludes(titles[1..], title);
          assert forall k :: 1 <= k < |titles| ==> titles[k] == titles[1..][k - 1];
          rest
  }

  /** The mark of one post, or `None` when looking it up throws. A post without a title is
      marked `X` without a search. */
  function MarkFor(title: Option<string>, search: string -> SearchReply): (r: Option<string>)
    ensures r.Some? ==> r.value == "O" || r.value == "X"
    ensures !TruthyText(title) ==> r == Some("X")
  {
    if !TruthyText(title) then Some("X")
    else match search(title.value)
      case SearchFailed => None
      case Results(None) => Some("X")
      case Results(Some(titles)) =>
        if titles == [] then Some("X")
        else match AnyIncludes(titles, title.value)
          case None => None
          case Some(found) => Some(if found then "O" else "X")
  }

  /** The rule of the mark: `O` only when some result title, tags stripped, contains the
      post's title, and always then when every result has a title; `X` when no result does. */
  lemma MarkForSpec(title: Option<string>, search: string -> SearchReply)
    ensures MarkFor(title, search) == Some("O") ==>
      && TruthyText(title)
      && search(title.value).Results?
      && search(title.value).items.Some?
      && exists t :: t in search(title.value).items.value && t.Some? && Contains(StripTags(t.value), title.value)
    ensures TruthyText(title) && search(title.value).Results? && search(title.value).items.Some? &&
      (forall t :: t in search(title.value).items.value ==> t.Some?) &&
      (exists t :: t in search(title.value).items.value && t.Some? && Contains(StripTags(t.value), title.value))
      ==> MarkFor(title, search) == Some("O")
    ensures MarkFor(title, search) == Some("X") ==>
      !TruthyText(title) ||
      (search(title.value).Results? &&
        forall t :: search(title.value).items.Some? && t in search(title.value).items.value ==>
          t.Some? && !Contains(StripTags(t.value), title.value))
  {
    if TruthyText(title) && search(title.value).Results? && search(title.value).items.Some? {
      var titles := search(title.value).items.value;
      var r := AnyIncludes(titles, title.value);
      if r == Some(true) {
        var k :| 0 <= k < |titles| && titles[k].Some? && Contains(StripTags(titles[k].value), title.value);
        assert titles[k] in titles;
      }
      if r == Some(false) {
        forall t | t in titles
          ensures t.Some? && !Contains(StripTags(t.value), title.value)
        {
          var k :| 0 <= k < |titles| && titles[k] == t;
        }
      }
      if r.None? {
        var k :| 0 <= k < |titles| && titles[k].None?;
        assert titles[k] in titles;
      }
    }
  }

  /** How far the loop gets: the first post whose lookup throws, or the end of the list. */
  function Reach(items: seq<Post>, search: string -> SearchReply, from: nat): (n: nat)
    requires from <= |items|
    ensures from <= n <= |items|
    ensures forall k :: from <= k < n ==> MarkFor(items[k].title, search).Some?
    ensures n < |items| ==> MarkFor(items[n].title, search).None?
    decreases |items| - from
  {
    if from == |items| || MarkFor(items[from].title, search).None? then from
    else Reach(items, search, from + 1)
  }

  predicate AllMarked(items: seq<Post>, search: string -> SearchReply) {
    forall k :: 0 <= k < |items| ==> MarkFor(items[k].title, search).Some?
  }

  /** The list after the check: the same posts in the same order, each with its new mark. */
  function Marks(items: seq<Post>, search: string -> SearchReply): (r: seq<Post>)
    requires AllMarked(items, search)
    ensures |r| == |items|
    ensures forall k :: 0 <= k < |items| ==>
      r[k] == items[k].(naverMark := MarkFor(items[k].title, search))
    decreases |items|
  {
    if items == [] then []
    else
      var last := items[|items| - 1];
      Marks(items[..|items| - 1], search) + [last.(naverMark := MarkFor(last.title, search))]
  }

  /** An `updateNaverMark(link, mark)` request. */
  datatype MarkPost = MarkPost(link: Option<string>, mark: string)

  /** The mark requests sent for the posts, in order. */
  function Posts(items: seq<Post>, search: string -> SearchReply): (r: seq<MarkPost>)
    requires AllMarked(items, search)
    ensures |r| == |items|
    ensures forall k :: 0 <= k < |items| ==>
      r[k] == MarkPost(items[k].link, MarkFor(items[k].title, search).value)
    decreases |items|
  {
    if items == [] then []
    else
      var last := items[|items| - 1];
      Posts(items[..|items| - 1], search) + [MarkPost(last.link, MarkFor(last.title, search).value)]
  }

  /** One more post checked is one more entry in the list and one more request. */
  lemma MarkedStep(items: seq<Post>, search: string -> SearchReply, i: nat)
    requires i < |items| && AllMarked(items[..i + 1], search)
    ensures AllMarked(items[..i], search)
    ensures Marks(items[..i + 1], search) == Marks(items[..i], search) + [items[i].(naverMark := MarkFor(items[i].title, search))]
    ensures Posts(items[..i + 1], search) == Posts(items[..i], search) + [MarkPost(items[i].link, MarkFor(items[i].title, search).value)]
  {
    assert items[..i + 1][..i] == items[..i];
  }

  /** `handleNaverIndexCheck`. An empty list only alerts. Otherwise each post is looked up in
      turn and its mark request sent; the new list replaces the page's list (`updated` is
      `Some`) only when the loop finishes, and a lookup that throws leaves the list as it
      was, with the requests sent before it. */
  method CheckIndex(items: seq<Post>, search: string -> SearchReply)
    returns (updated: Option<seq<Post>>, posted: seq<MarkPost>)
    ensures items == [] ==> updated.None? && posted == []
    ensures items != [] ==>
      var n := Reach(items, search, 0);
      && posted == Posts(items[..n], search)
      && (updated.Some? <==> n == |items|)
      && (updated.Some? ==> updated.value == Marks(items, search))
  {
    if |items| == 0 {
      return None, [];
    }
    ghost var n := Reach(items, search, 0);
    var updatedItems: seq<Post> := [];
    posted := [];
    for i := 0 to |items|
      invariant i <= n
      invariant updatedItems == Marks(items[..i], search)
      invariant posted == Posts(items[..i], search)
    {
      var item := items[i];
      var mark := MarkFor(item.title, search);
      if mark.None? {
        assert i == n;
        return None, posted;
      }
      assert i < n;
      MarkedStep(items, search, i);
      posted := posted + [MarkPost(item.link, mark.value)];
      updatedItems := updatedItems + [item.(naverMark := mark)];
    }
    assert items[..|items|] == items;
    return Some(updatedItems), posted;
  }
}
