/** The list logic of the naver-check page: the posts are filtered by day, grouped by the
    origin of their link with a count of `O` marks per origin, optionally sorted by origin
    or by count, and shown 100 groups a page. The URL parser and the date formatter are
    parameters. */
module NaverCheck {
  import opened Util
  import opened IndexCheck

  /* ---------------------------------------------------------------- sorting state */

  datatype SortKey = BaseUrlKey | OCountKey
  datatype Direction = Asc | Desc

  /** `sortConfig`: a key and a direction, both `null` when nothing is sorted. */
  datatype SortConfig = SortConfig(key: Option<SortKey>, direction: Option<Direction>)

  const Unsorted := SortConfig(None, None)

  /** `handleSort(key)`. */
  function HandleSort(prev: SortConfig, key: SortKey): (next: SortConfig)
    ensures next == Unsorted || next.key == Some(key)
  {
    if prev.key == Some(key) && prev.direction == Some(Asc) then SortConfig(Some(key), Some(Desc))
    else if prev.key == Some(key) && prev.direction == Some(Desc) then Unsorted
    else SortConfig(Some(key), Some(Asc))
  }

  /** `getSortIndicator(key)`: an up arrow while ascending on `key`, a down arrow while
      descending on it, nothing otherwise. */
  function SortIndicator(config: SortConfig, key: SortKey): (s: string)
    ensures s != "" <==> config.key == Some(key) && config.direction.Some?
  {
    if config.key != Some(key) then ""
    else
      match config.direction
      case Some(Asc) => "▲"
      case Some(Desc) => "▼"
      case None => ""
  }

  /** Clicking the header of the sorted column steps ascending, descending, unsorted; a
      click on another column, or with nothing sorted, starts ascending. Three clicks on one
      column from any state other than its own ascending or descending one come back to
      unsorted, the arrows showing ▲, ▼, then nothing. */
  lemma SortCycle(config: SortConfig, key: SortKey)
    ensures config.key != Some(key) || config.direction.None? ==>
      HandleSort(config, key) == SortConfig(Some(key), Some(Asc))
    ensures config.key == Some(key) && config.direction == Some(Asc) ==>
      HandleSort(config, key) == SortConfig(Some(key), Some(Desc))
    ensures config.key == Some(key) && config.direction == Some(Desc) ==>
      HandleSort(config, key) == Unsorted
    ensures config.key != Some(key) || config.direction.None? ==>
      var c1 := HandleSort(config, key);
      var c2 := HandleSort(c1, key);
      var c3 := HandleSort(c2, key);
      && SortIndicator(c1, key) == "▲" && SortIndicator(c2, key) == "▼"
      && c3 == Unsorted && SortIndicator(c3, key) == ""
  {
  }

  /** A sort is applied only when both the key and the direction are set. */
  predicate Active(config: SortConfig) {
    config.key.Some? && config.direction.Some?
  }

  /* ---------------------------------------------------------------- grouping */

  /** What `new URL(link)` yields: its `protocol` (with the colon) and `hostname`. */
  datatype Origin = Origin(protocol: string, hostname: string)

  /** `${url.protocol}//${url.hostname}`. */
  function BaseUrl(o: Origin): string {
    o.protocol + "//" + o.hostname
  }

  /** A row of the grouped table. */
  datatype Group = Group(baseUrl: string, oCount: nat)

  /** Where the group of `base` is in `groups`. */
  function Find(groups: seq<Group>, base: string): (r: Option<nat>)
    ensures r.Some? ==> r.value < |groups| && groups[r.value].baseUrl == base
    ensures r.None? ==> forall k :: 0 <= k < |groups| ==> groups[k].baseUrl != base
    decreases |groups|
  {
    if groups == [] then None
    else if groups[|groups| - 1].baseUrl == base then Some(|groups| - 1)
    else Find(groups[..|groups| - 1], base)
  }

  /** One step of the `forEach`: the group of `base` is created with count 0 when it is not
      there yet, and its count goes up when the post is marked `O`. */
  function AddPost(groups: seq<Group>, base: string, isO: bool): seq<Group> {
    var inc := if isO then 1 else 0;
    match Find(groups, base)
    case Some(k) => groups[k := groups[k].(oCount := groups[k].oCount + inc)]
    case None => groups + [Group(base, inc)]
  }

  /** Whether a post is marked exactly `"O"`. */
  predicate MarkedO(p: Post) {
    p.naverMark == Some("O")
  }

  /** `Object.values(grouped)` after the `forEach`: groups in the order their origin first
      appears. A post whose link does not parse is skipped. */
  function Grouped(items: seq<Post>, parse: Option<string> -> Option<Origin>): seq<Group>
    decreases |items|
  {
    if items == [] then []
    else
      var p := items[|items| - 1];
      var g := Grouped(items[..|items| - 1], parse);
      match parse(p.link)
      case None => g
      case Some(o) => AddPost(g, BaseUrl(o), MarkedO(p))
  }

  /** `processedData`: the `grouped` object is filled in place, post by post. */
  method GroupByOrigin(items: seq<Post>, parse: Option<string> -> Option<Origin>) returns (groups: seq<Group>)
    ensures groups == Grouped(items, parse)
  {
    groups := [];
    for i := 0 to |items|
      invariant groups == Grouped(items[..i], parse)
    {
      var item := items[i];
      assert items[..i + 1][..i] == items[..i];
      match parse(item.link) {
        case None =>
        case Some(url) =>
          var baseUrl := BaseUrl(url);
          var k := Find(groups, baseUrl);
          if k.None? {
            groups := groups + [Group(baseUrl, 0)];
            k := Some(|groups| - 1);
          }
          if MarkedO(item) {
            groups := groups[k.value := groups[k.value].(oCount := groups[k.value].oCount + 1)];
          }
      }
    }
    assert items[..|items|] == items;
  }

  /** The number of posts whose link parses to `base` and that are marked `O`. */
  function CountO(items: seq<Post>, parse: Option<string> -> Option<Origin>, base: string): nat
    decreases |items|
  {
    if items == [] then 0
    else
      var p := items[|items| - 1];
      CountO(items[..|items| - 1], parse, base) +
        (if parse(p.link).Some? && BaseUrl(parse(p.link).value) == base && MarkedO(p) then 1 else 0)
  }

  /** Whether some post's link parses to `base`. */
  predicate HasOrigin(items: seq<Post>, parse: Option<string> -> Option<Origin>, base: string) {
    exists k :: 0 <= k < |items| && parse(items[k].link).Some? && BaseUrl(parse(items[k].link).value) == base
  }

  predicate UniqueBases(groups: seq<Group>) {
    forall i, j :: 0 <= i < j < |groups| ==> groups[i].baseUrl != groups[j].baseUrl
  }

  /** The count of a group, 0 when there is none. */
  function OCountOf(groups: seq<Group>, base: string): nat {
    match Find(groups, base)
    case Some(k) => groups[k].oCount
    case None => 0
  }

  lemma AddPostSpec(groups: seq<Group>, base: string, isO: bool, b: string)
    requires UniqueBases(groups)
    ensures UniqueBases(AddPost(groups, base, isO))
    ensures Find(AddPost(groups, base, isO), b).Some? <==> Find(groups, b).Some? || b == base
    ensures OCountOf(AddPost(groups, base, isO), b) == OCountOf(groups, b) + (if b == base && isO then 1 else 0)
  {
    var g := AddPost(groups, base, isO);
    match Find(groups, base)
    case Some(k) =>
      assert forall i :: 0 <= i < |g| ==> g[i].baseUrl == groups[i].baseUrl;
      FindUnique(g, b, k);
      FindUnique(groups, b, k);
    case None =>
      assert forall i :: 0 <= i < |groups| ==> g[i] == groups[i];
      if b != base {
        assert Find(g, b) == Find(groups, b);
      }
  }

  /** In a list of distinct origins, the group found is the one holding the origin. */
  lemma FindUnique(groups: seq<Group>, base: string, k: nat)
    requires UniqueBases(groups) && k < |groups|
    ensures groups[k].baseUrl == base ==> Find(groups, base) == Some(k)
    ensures groups[k].baseUrl != base ==> Find(groups, base) != Some(k)
  {
    if groups[k].baseUrl == base && Find(groups, base).Some? {
      var j := Find(groups, base).value;
      assert groups[j].baseUrl == groups[k].baseUrl;
    }
  }

  /** Grouping gives one group per origin, exactly for the origins some post's link has,
      each counting that origin's `O` marks. A group exists even when its count is 0. */
  lemma {:induction false} GroupedSpec(items: seq<Post>, parse: Option<string> -> Option<Origin>, base: string)
    ensures UniqueBases(Grouped(items, parse))
    ensures Find(Grouped(items, parse), base).Some? <==> HasOrigin(items, parse, base)
    ensures OCountOf(Grouped(items, parse), base) == CountO(items, parse, base)
    decreases |items|
  {
    if items != [] {
      var init := items[..|items| - 1];
      var p := items[|items| - 1];
      GroupedSpec(init, parse, base);
      assert forall k :: 0 <= k < |init| ==> init[k] == items[k];
      if parse(p.link).Some? {
        AddPostSpec(Grouped(init, parse), BaseUrl(parse(p.link).value), MarkedO(p), base);
      }
      if HasOrigin(items, parse, base) && !HasOrigin(init, parse, base) {
        var k :| 0 <= k < |items| && parse(items[k].link).Some? && BaseUrl(parse(items[k].link).value) == base;
        assert k == |items| - 1;
      }
    }
  }

  /** The sum of the counts. */
  function SumO(groups: seq<Group>): nat
    decreases |groups|
  {
    if groups == [] then 0 else SumO(groups[..|groups| - 1]) + groups[|groups| - 1].oCount
  }

  /** The number of posts with a parseable link that are marked `O`. */
  function TotalO(items: seq<Post>, parse: Option<string> -> Option<Origin>): nat
    decreases |items|
  {
    if items == [] then 0
    else
      var p := items[|items| - 1];
      TotalO(items[..|items| - 1], parse) + (if parse(p.link).Some? && MarkedO(p) then 1 else 0)
  }

  lemma {:induction false} SumOUpdate(groups: seq<Group>, k: nat, g: Group)
    requires k < |groups|
    ensures SumO(groups[k := g]) + groups[k].oCount == SumO(groups) + g.oCount
    decreases |groups|
  {
    var n := |groups| - 1;
    if k < n {
      assert groups[k := g][..n] == groups[..n][k := g];
      SumOUpdate(groups[..n], k, g);
    } else {
      assert groups[k := g][..n] == groups[..n];
    }
  }

  /** `totalOCount`, the sum of the group counts, is the number of posts with a parseable
      link marked `O`: posts whose link does not parse are not counted. */
  lemma {:induction false} TotalOCount(items: seq<Post>, parse: Option<string> -> Option<Origin>)
    ensures SumO(Grouped(items, parse)) == TotalO(items, parse)
    decreases |items|
  {
    if items != [] {
      var init := items[..|items| - 1];
      var p := items[|items| - 1];
      TotalOCount(init, parse);
      var g := Grouped(init, parse);
      if parse(p.link).Some? {
        var base := BaseUrl(parse(p.link).value);
        var inc := if MarkedO(p) then 1 else 0;
        match Find(g, base)
        case Some(k) =>
          SumOUpdate(g, k, g[k].(oCount := g[k].oCount + inc));
        case None =>
          assert (g + [Group(base, inc)])[..|g|] == g;
      }
    }
  }

  /* ---------------------------------------------------------------- sorting */

  /** JavaScript `<` on strings: the first differing character decides, and a proper
      prefix comes first. */
  predicate StrLess(a: string, b: string)
    decreases |a|
  {
    if a == [] then b != []
    else if b == [] then false
    else if a[0] != b[0] then a[0] < b[0]
    else StrLess(a[1..], b[1..])
  }

  lemma {:induction false} StrLessIrreflexive(a: string)
    ensures !StrLess(a, a)
    decreases |a|
  {
    if a != [] {
      StrLessIrreflexive(a[1..]);
    }
  }

  lemma {:induction false} StrLessTransitive(a: string, b: string, c: string)
    requires StrLess(a, b) && StrLess(b, c)
    ensures StrLess(a, c)
    decreases |a|
  {
    if a != [] && b != [] && c != [] && a[0] == b[0] == c[0] {
      StrLessTransitive(a[1..], b[1..], c[1..]);
    }
  }

  lemma StrLessAsymmetric(a: string, b: string)
    ensures !(StrLess(a, b) && StrLess(b, a))
  {
    if StrLess(a, b) && StrLess(b, a) {
      StrLessTransitive(a, b, a);
      StrLessIrreflexive(a);
    }
  }

  lemma {:induction false} StrLessTotal(a: string, b: string)
    ensures a == b || StrLess(a, b) || StrLess(b, a)
    decreases |a|
  {
    if a != [] && b != [] && a[0] == b[0] {
      StrLessTotal(a[1..], b[1..]);
      if a[1..] == b[1..] {
        assert a == [a[0]] + a[1..] && b == [b[0]] + b[1..];
      }
    }
  }

  /** The sign of the comparator `sortedProcessedData` hands to `sort`. */
  function Compare(config: SortConfig, a: Group, b: Group): int
    requires Active(config)
  {
    var asc := config.direction == Some(Asc);
    match config.key.value
    case BaseUrlKey =>
      if StrLess(a.baseUrl, b.baseUrl) then (if asc then -1 else 1)
      else if StrLess(b.baseUrl, a.baseUrl) then (if asc then 1 else -1)
      else 0
    case OCountKey =>
      if asc then a.oCount - b.oCount else b.oCount - a.oCount
  }

  /** `a` may stay before `b`. */
  predicate Before(config: SortConfig, a: Group, b: Group)
    requires Active(config)
  {
    Compare(config, a, b) <= 0
  }

  /** The comparator is a total preorder, as `sort` needs. */
  lemma BeforeTotal(config: SortConfig, a: Group, b: Group)
    requires Active(config)
    ensures Before(config, a, b) || Before(config, b, a)
  {
    StrLessAsymmetric(a.baseUrl, b.baseUrl);
  }

  lemma BeforeTransitive(config: SortConfig, a: Group, b: Group, c: Group)
    requires Active(config) && Before(config, a, b) && Before(config, b, c)
    ensures Before(config, a, c)
  {
    if config.key == Some(BaseUrlKey) {
      var x, y, z := a.baseUrl, b.baseUrl, c.baseUrl;
      StrLessAsymmetric(x, y);
      StrLessAsymmetric(y, z);
      StrLessAsymmetric(x, z);
      if config.direction == Some(Asc) {
        StrLessTotal(x, y);
        if StrLess(z, x) && StrLess(x, y) { StrLessTransitive(z, x, y); }
      } else {
        StrLessTotal(y, z);
        if StrLess(x, z) && StrLess(z, y) { StrLessTransitive(x, z, y); }
      }
    }
  }

  predicate SortedBy(config: SortConfig, s: seq<Group>)
    requires Active(config)
  {
    forall i, j :: 0 <= i < j < |s| ==> Before(config, s[i], s[j])
  }

  /** Stable insertion: `x` goes after the last element it need not precede. */
  function Insert(config: SortConfig, s: seq<Group>, x: Group): (r: seq<Group>)
    requires Active(config)
    ensures multiset(r) == multiset(s) + multiset{x}
    decreases |s|
  {
    if s == [] then [x]
    else if Before(config, s[|s| - 1], x) then s + [x]
    else
      var init := s[..|s| - 1];
      assert s == init + [s[|s| - 1]];
      Insert(config, init, x) + [s[|s| - 1]]
  }

  /** `[...processedData].sort(comparator)`, a stable sort. */
  function Sort(config: SortConfig, xs: seq<Group>): (r: seq<Group>)
    requires Active(config)
    ensures multiset(r) == multiset(xs)
    decreases |xs|
  {
    if xs == [] then []
    else
      assert xs == xs[..|xs| - 1] + [xs[|xs| - 1]];
      Insert(config, Sort(config, xs[..|xs| - 1]), xs[|xs| - 1])
  }

  lemma {:induction false} InsertSorted(config: SortConfig, s: seq<Group>, x: Group)
    requires Active(config) && SortedBy(config, s)
    ensures SortedBy(config, Insert(config, s, x))
    decreases |s|
  {
    if s != [] {
      var last := s[|s| - 1];
      var init := s[..|s| - 1];
      var r := Insert(config, s, x);
      if Before(config, last, x) {
        forall i, j | 0 <= i < j < |r|
          ensures Before(config, r[i], r[j])
        {
          if j == |s| && i < |s| - 1 {
            BeforeTransitive(config, s[i], last, x);
          }
        }
      } else {
        BeforeTotal(config, last, x);
        assert SortedBy(config, init);
        InsertSorted(config, init, x);
        var t := Insert(config, init, x);
        forall i, j | 0 <= i < j < |r|
          ensures Before(config, r[i], r[j])
        {
          if j == |t| {
            assert r[i] in multiset(t);
            assert r[i] in init || r[i] == x;
          }
        }
      }
    }
  }

  /** `sortedProcessedData`: the grouped rows unchanged when no sort is active; otherwise
      the same rows, ordered by the comparator: by origin or by count, ascending or
      descending. */
  function SortedProcessed(config: SortConfig, groups: seq<Group>): (r: seq<Group>)
    ensures !Active(config) ==> r == groups
    ensures multiset(r) == multiset(groups)
    ensures Active(config) ==> SortedBy(config, r)
  {
    if !Active(config) then groups
    else
      SortSorted(config, groups);
      Sort(config, groups)
  }

  lemma {:induction false} SortSorted(config: SortConfig, xs: seq<Group>)
    requires Active(config)
    ensures SortedBy(config, Sort(config, xs))
    decreases |xs|
  {
    if xs != [] {
      SortSorted(config, xs[..|xs| - 1]);
      InsertSorted(config, Sort(config, xs[..|xs| - 1]), xs[|xs| - 1]);
    }
  }

  /** What the comparator orders by: a descending sort puts larger counts, or later origins,
      first. */
  lemma SortedMeaning(config: SortConfig, r: seq<Group>, i: nat, j: nat)
    requires Active(config) && SortedBy(config, r) && i < j < |r|
    ensures config == SortConfig(Some(OCountKey), Some(Asc)) ==> r[i].oCount <= r[j].oCount
    ensures config == SortConfig(Some(OCountKey), Some(Desc)) ==> r[i].oCount >= r[j].oCount
    ensures config == SortConfig(Some(BaseUrlKey), Some(Asc)) ==> !StrLess(r[j].baseUrl, r[i].baseUrl)
    ensures config == SortConfig(Some(BaseUrlKey), Some(Desc)) ==> !StrLess(r[i].baseUrl, r[j].baseUrl)
  {
    assert Before(config, r[i], r[j]);
    StrLessAsymmetric(r[i].baseUrl, r[j].baseUrl);
  }

  /* ---------------------------------------------------------------- pages and filters */

  const ItemsPerPage: nat := 100

  /** `paginatedData`: page `p` shows groups `(p-1)*100 .. p*100`; the page buttons number
      ceil(n/100), and each of those pages is non-empty. */
  lemma Pagination(groups: seq<Group>, page: nat)
    requires page >= 1
    ensures |PageSlice(groups, page, ItemsPerPage)| <= ItemsPerPage
    ensures forall k :: 0 <= k < |PageSlice(groups, page, ItemsPerPage)| ==>
      PageSlice(groups, page, ItemsPerPage)[k] == groups[(page - 1) * ItemsPerPage + k]
    ensures |Chunks(groups, ItemsPerPage)| == CeilDiv(|groups|, ItemsPerPage)
    ensures page <= CeilDiv(|groups|, ItemsPerPage) ==>
      PageSlice(groups, page, ItemsPerPage) == Chunks(groups, ItemsPerPage)[page - 1] != []
  {
    PageSliceAt(groups, page, ItemsPerPage);
    ChunksCount(groups, ItemsPerPage);
    if page <= CeilDiv(|groups|, ItemsPerPage) {
      PagesAreChunks(groups, page, ItemsPerPage);
    }
  }

  /** `items.filter(keep)`. */
  function Filter(items: seq<Post>, keep: Post -> bool): seq<Post>
    decreases |items|
  {
    if items == [] then []
    else Filter(items[..|items| - 1], keep) + (if keep(items[|items| - 1]) then [items[|items| - 1]] else [])
  }

  /** A filter only removes: it keeps exactly the posts that pass, in their order. */
  lemma {:induction false} FilterSpec(items: seq<Post>, keep: Post -> bool)
    ensures |Filter(items, keep)| <= |items|
    ensures forall p :: p in Filter(items, keep) <==> p in items && keep(p)
    ensures (forall k :: 0 <= k < |items| ==> keep(items[k])) ==> Filter(items, keep) == items
    decreases |items|
  {
    if items != [] {
      var init := items[..|items| - 1];
      FilterSpec(init, keep);
      assert items == init + [items[|items| - 1]];
      if forall k :: 0 <= k < |items| ==> keep(items[k]) {
        assert forall k :: 0 <= k < |init| ==> init[k] == items[k];
      }
    }
  }

  lemma {:induction false} FilterAppend(a: seq<Post>, b: seq<Post>, keep: Post -> bool)
    ensures Filter(a + b, keep) == Filter(a, keep) + Filter(b, keep)
    decreases |b|
  {
    if b == [] {
      assert a + b == a;
    } else {
      assert (a + b)[..|a + b| - 1] == a + b[..|b| - 1];
      FilterAppend(a, b[..|b| - 1], keep);
    }
  }

  /** The day filter on one date column: a post with no date never passes. `day` is
      `new Date(value).toLocaleDateString("en-CA")`. */
  predicate OnDay(date: Option<string>, filter: string, day: string -> string) {
    TruthyText(date) && day(date.value) == filter
  }

  /** `applyFilters`: the filtered list, and the page it resets to. */
  function ApplyFilters(raw: seq<Post>, writeDateFilter: string, collectDateFilter: string, day: string -> string): (seq<Post>, nat)
  {
    var byWrite := if writeDateFilter != "" then Filter(raw, (p: Post) => OnDay(p.writeDate, writeDateFilter, day)) else raw;
    var byCollect := if collectDateFilter != "" then Filter(byWrite, (p: Post) => OnDay(p.pyDate, collectDateFilter, day)) else byWrite;
    (byCollect, 1)
  }

  /** The filters only remove posts: what remains is what passes both, in the original
      order; with no filter set the list is unchanged; the page goes back to 1. */
  lemma ApplyFiltersSpec(raw: seq<Post>, writeDateFilter: string, collectDateFilter: string, day: string -> string)
    ensures ApplyFilters(raw, writeDateFilter, collectDateFilter, day).1 == 1
    ensures |ApplyFilters(raw, writeDateFilter, collectDateFilter, day).0| <= |raw|
    ensures forall p :: p in ApplyFilters(raw, writeDateFilter, collectDateFilter, day).0 <==>
      && p in raw
      && (writeDateFilter != "" ==> OnDay(p.writeDate, writeDateFilter, day))
      && (collectDateFilter != "" ==> OnDay(p.pyDate, collectDateFilter, day))
    ensures writeDateFilter == "" && collectDateFilter == "" ==>
      ApplyFilters(raw, writeDateFilter, collectDateFilter, day).0 == raw
  {
    var w: Post -> bool := (p: Post) => OnDay(p.writeDate, writeDateFilter, day);
    var c: Post -> bool := (p: Post) => OnDay(p.pyDate, collectDateFilter, day);
    FilterSpec(raw, w);
    var byWrite := if writeDateFilter != "" then Filter(raw, w) else raw;
    FilterSpec(byWrite, c);
  }
}
