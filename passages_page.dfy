/** The passages page of the API-backed client: the title search, the
    status counts, the day-based age label, the status badge and the delete
    confirmation dialog. */
module PassagesPage {
  import opened Wrappers
  import opened Seqs
  import opened Strings
  import opened Schema

  // ----- title search -----

  /** A passage matches when it has a title whose lower-case form contains the lower-case term. */
  function TitleMatches(term: string): Passage -> bool {
    (p: Passage) => p.passageTitle.Some? && Contains(ToLower(p.passageTitle.value), ToLower(term))
  }

  /** The passages the table lists for a search term, in the order loaded. */
  function FilteredPassages(passages: seq<Passage>, term: string): (r: seq<Passage>)
    ensures forall p :: p in r <==> p in passages && TitleMatches(term)(p)
    ensures forall p :: p in r ==> p.passageTitle.Some?
  {
    Filter(passages, TitleMatches(term))
  }

  /** The search only drops passages: what it lists keeps the loaded order. */
  lemma FilteredKeepsOrder(passages: seq<Passage>, term: string)
    ensures IsSubsequence(FilteredPassages(passages, term), passages)
  {
    FilterIsSubsequence(passages, TitleMatches(term));
  }

  /** An empty term lists every passage with a title, and only those. */
  lemma EmptyTermListsTitled(passages: seq<Passage>)
    ensures forall p :: p in FilteredPassages(passages, "") <==> p in passages && p.passageTitle.Some?
  {
    forall p | p in passages && p.passageTitle.Some?
      ensures TitleMatches("")(p)
    {
      assert ToLower("") == "";
      assert [] <= ToLower(p.passageTitle.value);
    }
  }

  /** The search ignores ASCII letter case in the term. */
  lemma SearchIgnoresTermCase(passages: seq<Passage>, term: string)
    ensures FilteredPassages(passages, ToLower(term)) == FilteredPassages(passages, term)
  {
    assert ToLower(ToLower(term)) == ToLower(term);
    assert TitleMatches(ToLower(term)) == TitleMatches(term);
  }

  // ----- counts -----

  datatype PassageCounts = PassageCounts(total: nat, active: nat, drafts: nat)

  function StatusIs(status: string): Passage -> bool {
    (p: Passage) => p.status == status
  }

  /** The three stat cards, counted over every loaded passage whatever the search. */
  function CountPassages(passages: seq<Passage>): (c: PassageCounts)
    ensures c.total == |passages|
    ensures c.active + c.drafts <= c.total
    ensures c.active == |PositionsWhere(passages, StatusIs("active"))|
    ensures c.drafts == |PositionsWhere(passages, StatusIs("draft"))|
  {
    FilterDisjointCounts(passages, StatusIs("active"), StatusIs("draft"));
    FilterCountsPositions(passages, StatusIs("active"));
    FilterCountsPositions(passages, StatusIs("draft"));
    PassageCounts(|passages|, |Filter(passages, StatusIs("active"))|,
      |Filter(passages, StatusIs("draft"))|)
  }

  /** A passage without a title is counted but never listed, even for an empty term. */
  lemma UntitledCountedNotListed(p: Passage, term: string)
    requires p.passageTitle.None?
    ensures CountPassages([p]).total == 1
    ensures FilteredPassages([p], term) == []
  {
  }

  // ----- days ago -----

  const DayMs: int := 1000 * 60 * 60 * 24

  datatype DaysLabel = Today | Yesterday | DaysAgo(days: int)

  /** The age label of a passage created `diffMs` milliseconds ago, in whole
      days rounded down; a creation time in the future gives a negative count. */
  function FormatDays(diffMs: int): (r: DaysLabel)
    ensures r == Today <==> 0 <= diffMs < DayMs
    ensures r == Yesterday <==> DayMs <= diffMs < 2 * DayMs
    ensures r.DaysAgo? ==> r.days != 0 && r.days != 1 && r.days * DayMs <= diffMs < (r.days + 1) * DayMs
  {
    var days := diffMs / DayMs;
    if days == 0 then Today else if days == 1 then Yesterday else DaysAgo(days)
  }

  function DaysText(d: DaysLabel): string {
    match d
    case Today => "Today"
    case Yesterday => "Yesterday"
    case DaysAgo(n) => IntToString(n) + " days ago"
  }

  // ----- status badge -----

  const PassageBadges: map<string, string> := map[
    "active" := "bg-green-100 text-green-800",
    "draft" := "bg-yellow-100 text-yellow-800",
    "inactive" := "bg-red-100 text-red-800"]

  /** The badge style of a passage status; statuses without a style get the draft one. */
  function PassageStatusBadge(status: string): (r: string)
    ensures status in PassageBadges ==> r == PassageBadges[status]
    ensures status !in PassageBadges ==> r == PassageBadges["draft"]
  {
    if status in PassageBadges then PassageBadges[status] else PassageBadges["draft"]
  }

  /** On this page a passage under review is shown with the draft style. */
  lemma UnderReviewLooksDraft()
    ensures PassageStatusBadge("under_review") == PassageStatusBadge("draft")
  {
    assert "under_review" !in PassageBadges;
  }

  // ----- delete confirmation -----

  /** The delete dialog's state; `requests` lists the passage ids whose delete was sent, in order. */
  class DeleteDialog {
    var open: bool
    var pending: Option<int>
    var requests: seq<int>

    /** The ids sent are never 0 (falsy), and an open dialog has an id to delete. */
    ghost predicate Valid()
      reads this
    {
      (forall id :: id in requests ==> id != 0) && (open ==> pending.Some?)
    }

    constructor ()
      ensures !open && pending == None && requests == []
      ensures Valid()
    {
      open := false;
      pending := None;
      requests := [];
    }

    /** The row's delete button: remember the passage and open the dialog. */
    method HandleDeletePassage(passageId: int)
      requires Valid()
      modifies this
      ensures open && pending == Some(passageId) && requests == old(requests)
      ensures Valid()
    {
      pending := Some(passageId);
      open := true;
    }

    /** The dialog's confirm button: a delete goes out only for a truthy id. The
        button is the dialog's own action control, which also reports the dialog
        closed to `onOpenChange`, so the dialog closes and the id stays. */
    method ConfirmDelete()
      requires Valid()
      modifies this
      ensures !open && pending == old(pending)
      ensures old(pending).Some? && old(pending).value != 0 ==> requests == old(requests) + [old(pending).value]
      ensures old(pending).None? || old(pending).value == 0 ==> requests == old(requests)
      ensures Valid()
    {
      if pending.Some? && pending.value != 0 {
        requests := requests + [pending.value];
      }
      open := false;
    }

    /** The delete request succeeded: close the dialog and forget the id. */
    method DeleteSucceeded()
      requires Valid()
      modifies this
      ensures !open && pending == None && requests == old(requests)
      ensures Valid()
    {
      open := false;
      pending := None;
    }

    /** Cancel or a click outside: the dialog closes and the id stays. */
    method Dismiss()
      requires Valid()
      modifies this
      ensures !open && pending == old(pending) && requests == old(requests)
      ensures Valid()
    {
      open := false;
    }
  }
}
