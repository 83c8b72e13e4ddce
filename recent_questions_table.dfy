/** The recent-questions table of the API-backed dashboard: the row selection
    behind its checkboxes, the header checkbox, the difficulty band, the
    status badge and the "time ago" label. */
module RecentQuestionsTable {
  import opened Wrappers
  import opened Seqs
  import opened Strings
  import opened Schema
  import opened Storage

  // ----- selection -----

  /** The qNos of the listed rows, in display order. */
  function ShownQNos(rows: seq<QuestionDetails>): (r: seq<int>)
    ensures |r| == |rows| && forall i :: 0 <= i < |rows| ==> r[i] == rows[i].question.qNo
  {
    seq(|rows|, i requires 0 <= i < |rows| => rows[i].question.qNo)
  }

  function IsNot(qNo: int): int -> bool {
    (id: int) => id != qNo
  }

  /** The selection after unchecking `qNo`. */
  function Without(selected: seq<int>, qNo: int): (r: seq<int>)
    ensures qNo !in r
    ensures forall id :: id != qNo ==> (id in r <==> id in selected)
  {
    Filter(selected, IsNot(qNo))
  }

  /** Unchecking keeps every other entry as often as before, in the same order. */
  lemma {:induction false} WithoutKeepsOthers(selected: seq<int>, qNo: int, id: int)
    requires id != qNo
    ensures multiset(Without(selected, qNo))[id] == multiset(selected)[id]
    ensures IsSubsequence(Without(selected, qNo), selected)
  {
    FilterIsSubsequence(selected, IsNot(qNo));
    if selected != [] {
      WithoutKeepsOthers(selected[1..], qNo, id);
      assert selected == [selected[0]] + selected[1..];
      if selected[0] != qNo {
        assert Without(selected, qNo) == [selected[0]] + Without(selected[1..], qNo);
      } else {
        assert Without(selected, qNo) == Without(selected[1..], qNo);
      }
    }
  }

  /** The rows' checkbox state, changed in place by the two handlers. */
  class RowSelection {
    var selected: seq<int>

    constructor ()
      ensures selected == []
    {
      selected := [];
    }

    /** The header checkbox: every listed row, or none. */
    method HandleSelectAll(rows: seq<QuestionDetails>, checked: bool)
      modifies this
      ensures checked ==> selected == ShownQNos(rows)
      ensures !checked ==> selected == []
      ensures AllShownSelected(selected, ShownQNos(rows)) <==> checked && rows != []
    {
      if checked {
        selected := ShownQNos(rows);
      } else {
        selected := [];
        if rows != [] {
          assert ShownQNos(rows)[0] in ShownQNos(rows);
        }
      }
    }

    /** A row checkbox: checking appends without looking for duplicates,
        unchecking drops every occurrence. */
    method HandleSelectQuestion(qNo: int, checked: bool)
      modifies this
      ensures checked ==> selected == old(selected) + [qNo]
      ensures !checked ==> selected == Without(old(selected), qNo)
    {
      if checked {
        selected := selected + [qNo];
      } else {
        selected := Without(selected, qNo);
      }
    }
  }

  /** The header checkbox as written: as many selected entries as rows, and at least one row. */
  predicate HeaderChecked(selected: seq<int>, shown: seq<int>) {
    |selected| == |shown| && |shown| > 0
  }

  /** The header checkbox as evidently intended: every listed row is selected. */
  predicate AllShownSelected(selected: seq<int>, shown: seq<int>) {
    shown != [] && forall id :: id in shown ==> id in selected
  }

  predicate Distinct(s: seq<int>) {
    forall i, j :: 0 <= i < j < |s| ==> s[i] != s[j]
  }

  /** What the checkboxes keep true while the list stays the same: no entry
      twice, and only listed rows. */
  predicate SelectionOf(selected: seq<int>, shown: seq<int>) {
    Distinct(selected) && forall id :: id in selected ==> id in shown
  }

  /** A row checkbox reports the opposite of its current state. */
  function Toggle(selected: seq<int>, qNo: int): seq<int> {
    if qNo in selected then Without(selected, qNo) else selected + [qNo]
  }

  lemma {:induction false} DistinctCard(s: seq<int>)
    requires Distinct(s)
    ensures |set id | id in s| == |s|
  {
    if s != [] {
      DistinctCard(s[1..]);
      assert (set id | id in s) == {s[0]} + (set id | id in s[1..]);
      assert s[0] !in (set id | id in s[1..]);
    }
  }

  lemma {:induction false} WithoutDistinct(s: seq<int>, qNo: int)
    requires Distinct(s)
    ensures Distinct(Without(s, qNo))
  {
    if s != [] {
      WithoutDistinct(s[1..], qNo);
      var rest := Without(s[1..], qNo);
      if s[0] != qNo {
        assert Without(s, qNo) == [s[0]] + rest;
        assert s[0] !in s[1..];
        assert s[0] !in rest;
      } else {
        assert Without(s, qNo) == rest;
      }
    }
  }

  /** Selecting all of a list of distinct rows, and clicking listed rows one by
      one, keep the selection distinct and within the list. */
  lemma SelectionStaysInList(selected: seq<int>, shown: seq<int>, qNo: int)
    requires Distinct(shown)
    requires SelectionOf(selected, shown) && qNo in shown
    ensures SelectionOf(shown, shown)
    ensures SelectionOf(Toggle(selected, qNo), shown)
  {
    if qNo in selected {
      WithoutDistinct(selected, qNo);
    } else {
      var r := selected + [qNo];
      forall i, j | 0 <= i < j < |r| ensures r[i] != r[j] {
        if j == |r| - 1 {
          assert r[i] in selected;
        }
      }
    }
  }

  /** While the selection comes from the listed rows, the length test of the
      header checkbox agrees with the intended "every row selected". */
  lemma HeaderAgreesOnCurrentList(selected: seq<int>, shown: seq<int>)
    requires Distinct(shown) && SelectionOf(selected, shown)
    ensures HeaderChecked(selected, shown) <==> AllShownSelected(selected, shown)
  {
    var a := set id | id in selected;
    var b := set id | id in shown;
    DistinctCard(selected);
    DistinctCard(shown);
    assert a <= b;
    if HeaderChecked(selected, shown) {
      forall id | id in shown ensures id in selected {
        if id !in selected {
          assert a <= b - {id};
          SubsetCard(a, b - {id});
          assert false;
        }
      }
    }
    if AllShownSelected(selected, shown) {
      assert a == b;
    }
  }

  /** After the search or the type filter changes the listed rows, the
      selection of the previous list is kept; with as many entries as rows
      the header shows checked although no listed row is selected. */
  lemma StaleSelectionChecksHeader()
    ensures HeaderChecked([1, 2], [3, 4])
    ensures !AllShownSelected([1, 2], [3, 4])
  {
    assert 3 in [3, 4];
  }

  // ----- difficulty band -----

  datatype Band = Easy | Medium | Hard

  /** The band of an average difficulty in hundredths of a percent point; a
      missing value counts as 0. */
  function DifficultyBand(difficulty: Option<Hundredths>): (b: Band)
    ensures b == Easy <==> difficulty.GetOr(0) >= 7000
    ensures b == Medium <==> 4000 <= difficulty.GetOr(0) < 7000
    ensures b == Hard <==> difficulty.GetOr(0) < 4000
    ensures difficulty.None? ==> b == Hard
  {
    var diff := difficulty.GetOr(0);
    if diff >= 7000 then Easy else if diff >= 4000 then Medium else Hard
  }

  function BandClass(b: Band): string {
    match b
    case Easy => "difficulty-easy"
    case Medium => "difficulty-medium"
    case Hard => "difficulty-hard"
  }

  function BandRank(b: Band): int {
    match b
    case Hard => 0
    case Medium => 1
    case Easy => 2
  }

  /** A higher average never lands in a harder band. */
  lemma DifficultyBandMonotone(x: Hundredths, y: Hundredths)
    requires x <= y
    ensures BandRank(DifficultyBand(Some(x))) <= BandRank(DifficultyBand(Some(y)))
  {
  }

  // ----- status badge -----

  const QuestionBadges: map<string, string> := map[
    "active" := "bg-green-100 text-green-800",
    "draft" := "bg-yellow-100 text-yellow-800",
    "inactive" := "bg-red-100 text-red-800",
    "under_review" := "bg-blue-100 text-blue-800"]

  /** The badge style of a question status; statuses without a style get the draft one. */
  function QuestionStatusBadge(status: string): (r: string)
    ensures status in QuestionBadges ==> r == QuestionBadges[status]
    ensures status !in QuestionBadges ==> r == QuestionBadges["draft"]
  {
    if status in QuestionBadges then QuestionBadges[status] else QuestionBadges["draft"]
  }

  /** Each of the four known statuses has a style of its own. */
  lemma QuestionBadgesDistinct(s: string, t: string)
    requires s in QuestionBadges && t in QuestionBadges && s != t
    ensures QuestionStatusBadge(s) != QuestionStatusBadge(t)
  {
  }

  // ----- time ago -----

  const HourMs: int := 1000 * 60 * 60

  datatype Elapsed = JustNow | HoursAgo(hours: int) | DaysAgo(days: int)

  /** The age bucket of a row created `diffMs` milliseconds ago: whole hours
      rounded down, and whole days from 24 hours on. A creation time in the
      future also reads "Just now". */
  function TimeAgo(diffMs: int): (r: Elapsed)
    ensures r == JustNow <==> diffMs < HourMs
    ensures r.HoursAgo? ==> 1 <= r.hours < 24 && r.hours * HourMs <= diffMs < (r.hours + 1) * HourMs
    ensures r.DaysAgo? ==> 1 <= r.days && r.days * 24 * HourMs <= diffMs < (r.days + 1) * 24 * HourMs
  {
    var hours := diffMs / HourMs;
    if hours < 1 then JustNow
    else if hours < 24 then HoursAgo(hours)
    else DaysAgo(hours / 24)
  }

  function TimeAgoText(e: Elapsed): string {
    match e
    case JustNow => "Just now"
    case HoursAgo(h) => IntToString(h) + " hours ago"
    case DaysAgo(d) => IntToString(d) + " days ago"
  }
}
