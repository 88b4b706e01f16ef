/** Values and string helpers shared by the scripts, the API routes and the admin pages. */
module Util {

  datatype Option<T> = None | Some(value: T)

  /** A cell of a decoded spreadsheet, or a JSON scalar: `undefined`, a string or an integer. */
  datatype Cell = Blank | Str(s: string) | Num(n: int)

  /** JavaScript truthiness of a cell: `undefined`, `""` and `0` are falsy. */
  predicate Truthy(c: Cell) {
    match c
    case Blank => false
    case Str(s) => s != ""
    case Num(n) => n != 0
  }

  /** A JavaScript string is truthy unless it is missing or empty. */
  predicate TruthyText(t: Option<string>) {
    t.Some? && t.value != ""
  }

  /** ECMAScript WhiteSpace and LineTerminator: what `\s` matches and `trim()` removes. */
  predicate IsJsSpace(c: char) {
    c == '\t' || c == '\n' || c == '\U{000B}' || c == '\U{000C}' || c == '\r' || c == ' '
    || c == '\U{00A0}' || c == '\U{1680}' || ('\U{2000}' <= c <= '\U{200A}')
    || c == '\U{2028}' || c == '\U{2029}' || c == '\U{202F}' || c == '\U{205F}'
    || c == '\U{3000}' || c == '\U{FEFF}'
  }

  /** ECMAScript LineTerminator: the characters `.` does not match. */
  predicate IsLineTerminator(c: char) {
    c == '\n' || c == '\r' || c == '\U{2028}' || c == '\U{2029}'
  }

  /** Python's `str.isspace` on one character: what `str.strip()` removes. */
  predicate IsPySpace(c: char) {
    c == '\t' || c == '\n' || c == '\U{000B}' || c == '\U{000C}' || c == '\r'
    || ('\U{001C}' <= c <= '\U{001F}') || c == ' ' || c == '\U{0085}' || c == '\U{00A0}'
    || c == '\U{1680}' || ('\U{2000}' <= c <= '\U{200A}') || c == '\U{2028}' || c == '\U{2029}'
    || c == '\U{202F}' || c == '\U{205F}' || c == '\U{3000}'
  }

  lemma LineTerminatorIsJsSpace(c: char)
    ensures IsLineTerminator(c) ==> IsJsSpace(c)
  {
  }

  /** How many leading characters of `s` satisfy `ws`. */
  function TrimStart(s: string, ws: char -> bool): (n: nat)
    ensures n <= |s| && (n == |s| || !ws(s[n]))
    ensures forall k :: 0 <= k < n ==> ws(s[k])
  {
    if s == [] || !ws(s[0]) then 0
    else
      var n := TrimStart(s[1..], ws);
      assert forall k :: 1 <= k < n + 1 ==> s[k] == s[1..][k - 1];
      n + 1
  }

  /** The length of `s` without its trailing characters that satisfy `ws`. */
  function TrimEnd(s: string, ws: char -> bool): (n: nat)
    ensures n <= |s| && (n == 0 || !ws(s[n - 1]))
    ensures forall k :: n <= k < |s| ==> ws(s[k])
  {
    if s == [] || !ws(s[|s| - 1]) then |s|
    else
      var n := TrimEnd(s[..|s| - 1], ws);
      assert forall k :: n <= k < |s| - 1 ==> s[k] == s[..|s| - 1][k];
      n
  }

  /** `r` is the slice of `s` that starts at `i`, and everything around it is whitespace. */
  predicate TrimmedAt(s: string, r: string, i: nat, ws: char -> bool) {
    && i + |r| <= |s| && s[i..i + |r|] == r
    && (forall k :: 0 <= k < i ==> ws(s[k]))
    && (forall k :: i + |r| <= k < |s| ==> ws(s[k]))
  }

  /** `trim()` / `strip()` with the whitespace class `ws`: a slice of `s` surrounded only by
      whitespace, whose two ends are not whitespace. */
  function Trim(s: string, ws: char -> bool): (r: string)
    ensures |r| <= |s|
    ensures r == [] || (!ws(r[0]) && !ws(r[|r| - 1]))
    ensures TrimmedAt(s, r, TrimStart(s, ws), ws)
  {
    var i := TrimStart(s, ws);
    var t := s[i..];
    var j := TrimEnd(t, ws);
    var r := s[i..i + j];
    assert forall k :: i + j <= k < |s| ==> ws(s[k]) by {
      forall k | i + j <= k < |s|
        ensures ws(s[k])
      {
        assert s[k] == t[k - i];
      }
    }
    assert j > 0 ==> !ws(r[0]) && !ws(r[j - 1]) by {
      if j > 0 {
        assert r[0] == s[i] && r[j - 1] == t[j - 1];
      }
    }
    r
  }

  /** JavaScript `String.prototype.trim`. */
  function JsTrim(s: string): string {
    Trim(s, IsJsSpace)
  }

  /** Python `str.strip()` without arguments. */
  function PyStrip(s: string): string {
    Trim(s, IsPySpace)
  }

  /** Trimming a string whose ends are not whitespace changes nothing. */
  lemma {:induction false} TrimKeeps(s: string, ws: char -> bool)
    requires s == [] || (!ws(s[0]) && !ws(s[|s| - 1]))
    ensures Trim(s, ws) == s
  {
  }

  /** Trimming twice is trimming once. */
  lemma TrimIdempotent(s: string, ws: char -> bool)
    ensures Trim(Trim(s, ws), ws) == Trim(s, ws)
  {
    TrimKeeps(Trim(s, ws), ws);
  }

  /** Trimming never cuts into a piece that starts and ends with non-whitespace. */
  lemma TrimKeepsOccurrence(s: string, ws: char -> bool, sub: string, j: nat)
    requires OccursAt(s, sub, j) && sub != [] && !ws(sub[0]) && !ws(sub[|sub| - 1])
    ensures TrimStart(s, ws) <= j && OccursAt(Trim(s, ws), sub, j - TrimStart(s, ws))
  {
    var i := TrimStart(s, ws);
    var r := Trim(s, ws);
    var piece := s[j..j + |sub|];
    assert s[j] == piece[0] && s[j + |sub| - 1] == piece[|sub| - 1];
    assert i <= j && j + |sub| <= i + |r|;
    assert r == s[i..i + |r|];
    forall k | 0 <= k < |sub|
      ensures r[j - i + k] == sub[k]
    {
      assert r[j - i + k] == s[j + k] == piece[k];
    }
    assert r[j - i..j - i + |sub|] == sub;
  }

  /** Every character of a trimmed string is a character of the string. */
  lemma TrimKeepsAll(s: string, ws: char -> bool, P: char -> bool)
    requires forall k :: 0 <= k < |s| ==> P(s[k])
    ensures forall k :: 0 <= k < |Trim(s, ws)| ==> P(Trim(s, ws)[k])
  {
    var i := TrimStart(s, ws);
    var r := Trim(s, ws);
    forall k | 0 <= k < |r|
      ensures P(r[k])
    {
      assert r[k] == s[i + k];
    }
  }

  /** `sub` occurs in `s` at position `i`. */
  predicate OccursAt(s: string, sub: string, i: nat) {
    i + |sub| <= |s| && s[i..i + |sub|] == sub
  }

  /** A piece of a concatenation occurs in it where it was put. */
  lemma OccursInMiddle(x: string, y: string, z: string)
    ensures OccursAt(x + y + z, y, |x|)
  {
    assert (x + y + z)[|x|..|x| + |y|] == y;
  }

  /** Each of three pieces put in the middle of a text occurs where it was put. */
  lemma ThreePiecesOccur(pre: string, a: string, b: string, c: string, post: string)
    ensures OccursAt(pre + (a + b + c) + post, a, |pre|)
    ensures OccursAt(pre + (a + b + c) + post, b, |pre| + |a|)
    ensures OccursAt(pre + (a + b + c) + post, c, |pre| + |a| + |b|)
  {
    var out := pre + (a + b + c) + post;
    assert out == pre + a + (b + c + post);
    OccursInMiddle(pre, a, b + c + post);
    assert out == (pre + a) + b + (c + post);
    OccursInMiddle(pre + a, b, c + post);
    assert out == (pre + a + b) + c + post;
    OccursInMiddle(pre + a + b, c, post);
  }

  /** An occurrence inside an occurrence. */
  lemma OccursWithin(s: string, t: string, i: nat, sub: string, j: nat, k: nat)
    requires OccursAt(s, t, i) && OccursAt(t, sub, j) && k == i + j
    ensures OccursAt(s, sub, k)
  {
    assert s[k..k + |sub|] == t[j..j + |sub|];
  }

  /** The outer pieces of a concatenation are its prefix and suffix. */
  lemma ConcatParts(x: string, y: string, z: string)
    ensures |x + y + z| == |x| + |y| + |z|
    ensures (x + y + z)[..|x|] == x && (x + y + z)[|x| + |y|..] == z
  {
  }

  /** Cutting `s[p..e]` out of `s` keeps an occurrence that starts after the cut. */
  lemma CutKeepsOccurrence(s: string, p: nat, e: nat, sub: string, j: nat)
    requires p <= e <= j && OccursAt(s, sub, j)
    ensures OccursAt(s[..p] + s[e..], sub, p + (j - e))
  {
    var rest := s[..p] + s[e..];
    assert rest[p..] == s[e..];
    assert rest[p + (j - e) .. p + (j - e) + |sub|] == rest[p..][j - e .. j - e + |sub|];
  }

  /** JavaScript `includes` / Python `in` on strings. */
  predicate Contains(s: string, sub: string) {
    exists i: nat :: i <= |s| && OccursAt(s, sub, i)
  }

  /** The index of the first `c` in `s`, if any. */
  function IndexOf(s: string, c: char): (r: Option<nat>)
    ensures r.None? <==> c !in s
    ensures r.Some? ==> r.value < |s| && s[r.value] == c && c !in s[..r.value]
  {
    if s == [] then None
    else if s[0] == c then Some(0)
    else match IndexOf(s[1..], c)
      case None => None
      case Some(k) => assert s[1..][..k] == s[1..k + 1]; Some(k + 1)
  }

  /** A position holding `c` with no `c` before it is the one `IndexOf` finds. */
  lemma {:induction false} IndexOfFirst(s: string, c: char, k: nat)
    requires k < |s| && s[k] == c && c !in s[..k]
    ensures IndexOf(s, c) == Some(k)
  {
    if k > 0 {
      assert s[0] == s[..k][0];
      assert s[1..][..k - 1] == s[..k][1..];
      IndexOfFirst(s[1..], c, k - 1);
    }
  }

  /** Python's `[f(x) for x in xs if f(x)]` shape: the kept results of `f`, in order. */
  function FilterMap<A, B>(xs: seq<A>, f: A -> Option<B>): seq<B> {
    if xs == [] then []
    else FilterMap(xs[..|xs| - 1], f) + (match f(xs[|xs| - 1]) case Some(y) => [y] case None => [])
  }

  /** Filtering two inputs one after the other is filtering each. */
  lemma {:induction false} FilterMapAppend<A, B>(a: seq<A>, b: seq<A>, f: A -> Option<B>)
    ensures FilterMap(a + b, f) == FilterMap(a, f) + FilterMap(b, f)
    decreases |b|
  {
    if b == [] {
      assert a + b == a;
    } else {
      assert (a + b)[..|a + b| - 1] == a + b[..|b| - 1];
      FilterMapAppend(a, b[..|b| - 1], f);
    }
  }

  /** Every kept result comes from some input, and there are no more results than inputs. */
  lemma {:induction false} FilterMapFrom<A, B>(xs: seq<A>, f: A -> Option<B>)
    ensures |FilterMap(xs, f)| <= |xs|
    ensures forall y :: y in FilterMap(xs, f) ==> exists i :: 0 <= i < |xs| && f(xs[i]) == Some(y)
  {
    if xs != [] {
      FilterMapFrom(xs[..|xs| - 1], f);
      var ys := FilterMap(xs, f);
      forall y | y in ys ensures exists i :: 0 <= i < |xs| && f(xs[i]) == Some(y) {
        if y in FilterMap(xs[..|xs| - 1], f) {
          var i :| 0 <= i < |xs| - 1 && f(xs[..|xs| - 1][i]) == Some(y);
          assert xs[..|xs| - 1][i] == xs[i];
        } else {
          assert f(xs[|xs| - 1]) == Some(y);
        }
      }
    }
  }

  /** An input whose result is kept contributes that result. */
  lemma {:induction false} FilterMapKeeps<A, B>(xs: seq<A>, f: A -> Option<B>, i: nat)
    requires i < |xs| && f(xs[i]).Some?
    ensures f(xs[i]).value in FilterMap(xs, f)
  {
    if i < |xs| - 1 {
      assert xs[..|xs| - 1][i] == xs[i];
      FilterMapKeeps(xs[..|xs| - 1], f, i);
    }
  }

  function Min(a: int, b: int): int {
    if a <= b then a else b
  }

  /** `Math.ceil(a / n)` for naturals. */
  function CeilDiv(a: nat, n: nat): nat
    requires n > 0
  {
    if a == 0 then 0 else 1 + CeilDiv(if a <= n then 0 else a - n, n)
  }

  /** `CeilDiv(a, n)` is the least `q` with `q * n >= a`. */
  lemma {:induction false} CeilDivSpec(a: nat, n: nat)
    requires n > 0
    ensures CeilDiv(a, n) * n >= a
    ensures CeilDiv(a, n) == 0 || (CeilDiv(a, n) - 1) * n < a
  {
    if a > n {
      CeilDivSpec(a - n, n);
    }
  }

  /** Every index below `ceil(a/n)` starts a block inside `a`. */
  lemma CeilDivBelow(a: nat, n: nat, k: nat)
    requires n > 0 && k < CeilDiv(a, n)
    ensures k * n < a
  {
    var q := CeilDiv(a, n);
    CeilDivSpec(a, n);
    assert (q - 1) * n == k * n + (q - 1 - k) * n;
  }

  function Flatten<T>(ss: seq<seq<T>>): seq<T> {
    if ss == [] then [] else ss[0] + Flatten(ss[1..])
  }

  lemma {:induction false} FlattenAppend<T>(a: seq<seq<T>>, b: seq<seq<T>>)
    ensures Flatten(a + b) == Flatten(a) + Flatten(b)
  {
    if a == [] {
      assert a + b == b;
    } else {
      assert (a + b)[1..] == a[1..] + b;
      FlattenAppend(a[1..], b);
    }
  }

  /** Consecutive slices of at most `n` elements, the last one possibly shorter. */
  function Chunks<T>(s: seq<T>, n: nat): seq<seq<T>>
    requires n > 0
    decreases |s|
  {
    if s == [] then [] else if |s| <= n then [s] else [s[..n]] + Chunks(s[n..], n)
  }

  /** There are ceil(|s|/n) chunks. */
  lemma {:induction false} ChunksCount<T>(s: seq<T>, n: nat)
    requires n > 0
    ensures |Chunks(s, n)| == CeilDiv(|s|, n)
    decreases |s|
  {
    if |s| > n {
      ChunksCount(s[n..], n);
    }
  }

  /** Together the chunks are `s` again, in order. */
  lemma {:induction false} ChunksFlatten<T>(s: seq<T>, n: nat)
    requires n > 0
    ensures Flatten(Chunks(s, n)) == s
    decreases |s|
  {
    if s == [] {
    } else if |s| <= n {
      assert Flatten([s]) == s + Flatten<T>([]);
    } else {
      var rest := Chunks(s[n..], n);
      ChunksFlatten(s[n..], n);
      var c := [s[..n]] + rest;
      assert c[1..] == rest;
      calc {
        Flatten(Chunks(s, n));
        Flatten(c);
        s[..n] + Flatten(rest);
        s[..n] + s[n..];
        s;
      }
    }
  }

  /** The k-th chunk is `s[k*n .. min(k*n + n, |s|)]`, which is not empty. */
  lemma {:induction false} ChunkAt<T>(s: seq<T>, n: nat, k: nat)
    requires n > 0 && k < |Chunks(s, n)|
    ensures k * n < |s| && Chunks(s, n)[k] == s[k * n .. Min(k * n + n, |s|)]
    decreases k
  {
    if k > 0 {
      var rest := Chunks(s[n..], n);
      assert Chunks(s, n)[k] == rest[k - 1];
      ChunkAt(s[n..], n, k - 1);
      var j := (k - 1) * n;
      assert j + n == k * n;
      assert rest[k - 1] == s[n..][j .. Min(j + n, |s| - n)];
    }
  }

  /** The `k`-th chunk exists exactly when `k * n` is still inside `s`. */
  lemma {:induction false} ChunkIndex<T>(s: seq<T>, n: nat, k: nat)
    requires n > 0
    ensures k < |Chunks(s, n)| <==> k * n < |s|
    decreases |s|
  {
    if k > 0 && s != [] {
      assert k * n == (k - 1) * n + n;
      if |s| > n {
        ChunkIndex(s[n..], n, k - 1);
      }
    }
  }

  /** Every chunk has at most `n` elements, and all but the last exactly `n`. */
  lemma ChunkSizes<T>(s: seq<T>, n: nat, k: nat)
    requires n > 0 && k < |Chunks(s, n)|
    ensures 0 < |Chunks(s, n)[k]| <= n
    ensures k + 1 < |Chunks(s, n)| ==> |Chunks(s, n)[k]| == n
  {
    ChunkAt(s, n, k);
    if k + 1 < |Chunks(s, n)| {
      ChunkAt(s, n, k + 1);
      assert (k + 1) * n == k * n + n;
    }
  }

  /** The `page`-th page (from 1) of `per` items: `s.slice((page-1)*per, page*per)`. */
  function PageSlice<T>(s: seq<T>, page: nat, per: nat): (r: seq<T>)
    requires page >= 1
  {
    var start := Min((page - 1) * per, |s|);
    var end := Min(page * per, |s|);
    s[start..end]
  }

  /** Item `k` of a page is item `(page-1)*per + k` of the list, a page never holds more than
      `per` items, and it holds none once it starts past the end. */
  lemma PageSliceAt<T>(s: seq<T>, page: nat, per: nat)
    requires page >= 1
    ensures |PageSlice(s, page, per)| <= per
    ensures (page - 1) * per >= |s| ==> PageSlice(s, page, per) == []
    ensures per > 0 && (page - 1) * per < |s| ==> PageSlice(s, page, per) != []
    ensures page * per <= |s| ==> |PageSlice(s, page, per)| == per
    ensures forall k :: 0 <= k < |PageSlice(s, page, per)| ==>
      (page - 1) * per + k < |s| && PageSlice(s, page, per)[k] == s[(page - 1) * per + k]
  {
    assert page * per == (page - 1) * per + per;
  }

  /** The `page`-th page is the `page`-th chunk: ceil(|s|/per) non-empty pages, which
      together are the whole list in order. */
  lemma PagesAreChunks<T>(s: seq<T>, page: nat, per: nat)
    requires per > 0 && 1 <= page <= CeilDiv(|s|, per)
    ensures |Chunks(s, per)| == CeilDiv(|s|, per)
    ensures PageSlice(s, page, per) == Chunks(s, per)[page - 1] != []
  {
    ChunksCount(s, per);
    ChunkAt(s, per, page - 1);
    assert page * per == (page - 1) * per + per;
  }

  /** The 1-based row number a page shows beside its `index`-th item is that item's position
      in the whole list, plus one. */
  function RowNumber(page: nat, per: nat, index: nat): (n: nat)
    requires page >= 1
  {
    (page - 1) * per + index + 1
  }

  lemma RowNumberNamesItem<T>(s: seq<T>, page: nat, per: nat, index: nat)
    requires page >= 1 && index < |PageSlice(s, page, per)|
    ensures 1 <= RowNumber(page, per, index) <= |s|
    ensures s[RowNumber(page, per, index) - 1] == PageSlice(s, page, per)[index]
  {
    PageSliceAt(s, page, per);
  }

  function DigitChar(d: nat): (c: char)
    requires d < 10
    ensures '0' <= c <= '9' && (c as int) - ('0' as int) == d
  {
    ((d + '0' as int) as char)
  }

  function DigitValue(c: char): (d: nat)
    requires '0' <= c <= '9'
    ensures d < 10 && DigitChar(d) == c
  {
    (c as int) - ('0' as int)
  }

  /** `String(n)` for a natural number: its decimal digits, without leading zeros. */
  function NatToString(n: nat): (r: string)
    ensures |r| >= 1 && IsDigits(r)
    ensures |r| > 1 ==> r[0] != '0'
  {
    if n < 10 then [DigitChar(n)] else NatToString(n / 10) + [DigitChar(n % 10)]
  }

  /** `String(n)` for any integer: a minus sign before the digits of a negative one. */
  function IntToString(n: int): (r: string)
    ensures n >= 0 ==> r == NatToString(n)
    ensures n < 0 ==> r == "-" + NatToString(-n)
  {
    if n < 0 then "-" + NatToString(-n) else NatToString(n)
  }

  /** The value of a string of decimal digits. */
  predicate IsDigits(s: string) {
    forall i :: 0 <= i < |s| ==> '0' <= s[i] <= '9'
  }

  function DigitsValue(s: string): nat
    requires IsDigits(s)
  {
    if s == [] then 0 else 10 * DigitsValue(s[..|s| - 1]) + DigitValue(s[|s| - 1])
  }

  /** Reading the digits back gives the number: `NatToString` loses nothing. */
  lemma {:induction false} NatToStringRoundTrip(n: nat)
    ensures DigitsValue(NatToString(n)) == n
  {
    if n >= 10 {
      NatToStringRoundTrip(n / 10);
      var r := NatToString(n);
      assert r[..|r| - 1] == NatToString(n / 10);
      assert DigitValue(r[|r| - 1]) == n % 10;
    }
  }

  /** Distinct numbers have distinct decimal strings. */
  lemma NatToStringInjective(a: nat, b: nat)
    requires NatToString(a) == NatToString(b)
    ensures a == b
  {
    NatToStringRoundTrip(a);
    NatToStringRoundTrip(b);
  }

  /** `String(n).padStart(2, "0")`. */
  function Pad2(n: nat): (r: string)
    ensures IsDigits(r)
    ensures n < 100 ==> |r| == 2 && DigitsValue(r) == n
  {
    NatToStringRoundTrip(n);
    if n < 10 then "0" + NatToString(n) else NatToString(n)
  }
}
