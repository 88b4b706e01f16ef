/** The list logic of the completed-posts page: 100 posts a page, a selection of post ids
    driven by the row boxes and the header box, and the date column's display format. The
    index check the page runs is `IndexCheck.CheckIndex`; `new Date` is a parameter giving
    the local date and time of a string, or `None` for an invalid date. */
module CompletedPage {
  import opened Util
  import opened Selection

  const ItemsPerPage: nat := 100

  /** `currentItems`: the ids of page `page`; `Util.PageSliceAt` says which they are. */
  function CurrentItems(ids: seq<Id>, page: nat): seq<Id>
    requires page >= 1
  {
    PageSlice(ids, page, ItemsPerPage)
  }

  /** The `checked` state of the header box: the page has rows and all of them are selected. */
  predicate HeaderChecked(selected: set<Id>, pageIds: seq<Id>) {
    |pageIds| > 0 && forall k :: 0 <= k < |pageIds| ==> pageIds[k] in selected
  }

  /** The header box's `onChange`: checking selects exactly the current page's ids, and
      unchecking removes the current page's ids from a copy of the selection. */
  method HeaderChange(checked: bool, selected: set<Id>, pageIds: seq<Id>) returns (newSet: set<Id>)
    ensures checked ==> newSet == IdSet(pageIds)
    ensures !checked ==> newSet == selected - IdSet(pageIds)
  {
    if checked {
      newSet := IdSet(pageIds);
    } else {
      newSet := Unselect(selected, pageIds);
    }
  }

  /** Checking the header selects the page's ids and drops every selection on other pages;
      afterwards the box shows checked exactly when the page has rows. Unchecking removes
      only the page's ids, and the box then shows unchecked. */
  lemma HeaderChangeSpec(selected: set<Id>, pageIds: seq<Id>, x: Id)
    ensures x in IdSet(pageIds) <==> x in pageIds
    ensures HeaderChecked(IdSet(pageIds), pageIds) <==> pageIds != []
    ensures x !in pageIds ==> (x in selected - IdSet(pageIds) <==> x in selected)
    ensures x in pageIds ==> x !in selected - IdSet(pageIds)
    ensures !HeaderChecked(selected - IdSet(pageIds), pageIds)
  {
    if pageIds != [] {
      assert pageIds[0] in pageIds;
    }
  }

  /** The local date and time `new Date(s)` stands for: `getFullYear()`, `getMonth()` (from
      0), `getDate()`, `getHours()` and `getMinutes()`. */
  datatype DateParts = DateParts(year: int, monthIndex: nat, day: nat, hours: nat, minutes: nat)

  /** `YYYY-MM-DD HH:mm`: the year, then month (from 1), day, hours and minutes, each padded
      to two digits. */
  function Formatted(d: DateParts): string {
    IntToString(d.year) + Tail(d)
  }

  /** The part of the display after the year. */
  function Tail(d: DateParts): string {
    "-" + Pad2(d.monthIndex + 1) + "-" + Pad2(d.day) + " " + Pad2(d.hours) + ":" + Pad2(d.minutes)
  }

  /** `formatDateTime`: `""` for an empty or missing value, the value itself when it is not
      a valid date, and its `YYYY-MM-DD HH:mm` form otherwise. */
  function FormatDateTime(dateString: Option<string>, parse: string -> Option<DateParts>): (r: string)
    ensures !TruthyText(dateString) ==> r == ""
    ensures TruthyText(dateString) && parse(dateString.value).None? ==> r == dateString.value
    ensures TruthyText(dateString) && parse(dateString.value).Some? ==> r == Formatted(parse(dateString.value).value)
  {
    if !TruthyText(dateString) then ""
    else
      match parse(dateString.value)
      case None => dateString.value
      case Some(d) => Formatted(d)
  }

  /** A date as the calendar and clock have it. */
  predicate ValidParts(d: DateParts) {
    d.year >= 0 && d.monthIndex < 12 && 1 <= d.day <= 31 && d.hours < 24 && d.minutes < 60
  }

  /** A two-digit field read back from its two characters. */
  function Two(hi: char, lo: char): Option<nat> {
    if '0' <= hi <= '9' && '0' <= lo <= '9' then Some(10 * DigitValue(hi) + DigitValue(lo)) else None
  }

  /** Reads a `YYYY-MM-DD HH:mm` text back: the last twelve characters hold the separators
      and the two-digit fields, and the digits before them are the year. */
  function ParseFormatted(r: string): Option<DateParts> {
    if |r| < 13 then None
    else
      var n := |r| - 12;
      var y := r[..n];
      var mo, da, ho, mi := Two(r[n + 1], r[n + 2]), Two(r[n + 4], r[n + 5]), Two(r[n + 7], r[n + 8]), Two(r[n + 10], r[n + 11]);
      if IsDigits(y) && r[n] == '-' && r[n + 3] == '-' && r[n + 6] == ' ' && r[n + 9] == ':'
         && mo.Some? && da.Some? && ho.Some? && mi.Some? && mo.value >= 1
      then Some(DateParts(DigitsValue(y), mo.value - 1, da.value, ho.value, mi.value))
      else None
  }

  /** The two characters `padStart(2, "0")` gives a number below 100 read back as it. */
  lemma Pad2ReadsBack(n: nat)
    requires n < 100
    ensures |Pad2(n)| == 2 && Two(Pad2(n)[0], Pad2(n)[1]) == Some(n)
  {
    if n >= 10 {
      assert NatToString(n / 10) == [DigitChar(n / 10)];
    }
    assert Pad2(n) == [DigitChar(n / 10), DigitChar(n % 10)];
  }

  /** The display loses nothing of a valid date: reading it back gives the date. */
  lemma FormattedRoundTrip(d: DateParts)
    requires ValidParts(d)
    ensures ParseFormatted(Formatted(d)) == Some(d)
  {
    NatToStringRoundTrip(d.year);
    TailChars(d);
    ParseTail(NatToString(d.year), Tail(d), d.monthIndex + 1, d.day, d.hours, d.minutes);
  }

  /** The twelve characters after the year of a valid date: the separators, and fields that
      read back as the month (from 1), day, hours and minutes. */
  lemma TailChars(d: DateParts)
    requires ValidParts(d)
    ensures var t := Tail(d);
      && |t| == 12 && t[0] == '-' && t[3] == '-' && t[6] == ' ' && t[9] == ':'
      && Two(t[1], t[2]) == Some(d.monthIndex + 1) && Two(t[4], t[5]) == Some(d.day)
      && Two(t[7], t[8]) == Some(d.hours) && Two(t[10], t[11]) == Some(d.minutes)
  {
    var m := d.monthIndex + 1;
    Pad2ReadsBack(m);
    Pad2ReadsBack(d.day);
    Pad2ReadsBack(d.hours);
    Pad2ReadsBack(d.minutes);
    Glue(Pad2(m), Pad2(d.day), Pad2(d.hours), Pad2(d.minutes));
  }

  /** The separators and four two-character fields, character by character. */
  lemma Glue(p1: string, p2: string, p3: string, p4: string)
    requires |p1| == |p2| == |p3| == |p4| == 2
    ensures var t := "-" + p1 + "-" + p2 + " " + p3 + ":" + p4;
      && |t| == 12 && t[0] == '-' && t[3] == '-' && t[6] == ' ' && t[9] == ':'
      && t[1] == p1[0] && t[2] == p1[1] && t[4] == p2[0] && t[5] == p2[1]
      && t[7] == p3[0] && t[8] == p3[1] && t[10] == p4[0] && t[11] == p4[1]
  {
    assert "-" + p1 == ['-', p1[0], p1[1]];
    assert "-" + p1 + "-" + p2 == ['-', p1[0], p1[1], '-', p2[0], p2[1]];
    assert "-" + p1 + "-" + p2 + " " + p3 == ['-', p1[0], p1[1], '-', p2[0], p2[1], ' ', p3[0], p3[1]];
    assert "-" + p1 + "-" + p2 + " " + p3 + ":" + p4 ==
      ['-', p1[0], p1[1], '-', p2[0], p2[1], ' ', p3[0], p3[1], ':', p4[0], p4[1]];
  }

  /** The parse of a year followed by twelve characters holding the separators and the
      fields. */
  lemma ParseTail(y: string, tail: string, mo: nat, da: nat, ho: nat, mi: nat)
    requires |y| >= 1 && IsDigits(y) && |tail| == 12 && mo >= 1
    requires tail[0] == '-' && tail[3] == '-' && tail[6] == ' ' && tail[9] == ':'
    requires Two(tail[1], tail[2]) == Some(mo) && Two(tail[4], tail[5]) == Some(da)
    requires Two(tail[7], tail[8]) == Some(ho) && Two(tail[10], tail[11]) == Some(mi)
    ensures ParseFormatted(y + tail) == Some(DateParts(DigitsValue(y), mo - 1, da, ho, mi))
  {
    assert (y + tail)[..|y|] == y;
  }

  /** Two valid dates with the same display are the same date to the minute. */
  lemma FormattedInjective(d1: DateParts, d2: DateParts)
    requires ValidParts(d1) && ValidParts(d2)
    requires Formatted(d1) == Formatted(d2)
    ensures d1 == d2
  {
    FormattedRoundTrip(d1);
    FormattedRoundTrip(d2);
  }
}
