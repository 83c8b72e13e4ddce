/** The single-page admin client backed by the hosted tables: client-side
    pagination over fully loaded lists, the page-button rule, the subtype
    list for the chosen type, the summary counts, and the page, form and
    modal state the handlers change. */
module App {
  import opened Wrappers
  import opened Seqs
  import opened Schema

  const ItemsPerPage: int := 10
  /** Above this many pages the page buttons are abbreviated. */
  const MaxFullPages: int := 7

  // ----- slicing -----

  /** How `Array.prototype.slice` resolves an index: negative counts from the end, then clamped to [0, len]. */
  function SliceIndex(i: int, len: nat): (r: nat)
    ensures r <= len
    ensures 0 <= i <= len ==> r == i
  {
    if i < 0 then Max(len + i, 0) else Min(i, len)
  }

  /** `s.slice(start, end)`. */
  function JsSlice<T>(s: seq<T>, start: int, end: int): (r: seq<T>)
    ensures 0 <= start <= end <= |s| ==> r == s[start..end]
    ensures 0 <= start && |s| <= start ==> r == []
  {
    var a := SliceIndex(start, |s|);
    var b := SliceIndex(end, |s|);
    if a < b then s[a..b] else []
  }

  /** getPaginatedData: the items of page `page` (counted from 1). */
  function GetPaginatedData<T>(data: seq<T>, page: int): (r: seq<T>)
    ensures |r| <= ItemsPerPage
    ensures forall x :: x in r ==> x in data
  {
    var start := (page - 1) * ItemsPerPage;
    JsSlice(data, start, start + ItemsPerPage)
  }

  /** A page counted from 1 holds the (at most ten) items from position
      (page-1)*10 on, in order; a page past the end is empty. */
  lemma PageContents<T>(data: seq<T>, page: int)
    requires page >= 1
    ensures var r := GetPaginatedData(data, page);
      var start := (page - 1) * ItemsPerPage;
      && |r| == (if start >= |data| then 0 else Min(ItemsPerPage, |data| - start))
      && (forall i :: 0 <= i < |r| ==> r[i] == data[start + i])
  {
    var start := (page - 1) * ItemsPerPage;
    if start + ItemsPerPage > |data| && start < |data| {
      assert GetPaginatedData(data, page) == data[start..];
    }
  }

  /** getTotalPages: ceil(n / 10). */
  function GetTotalPages(n: nat): (r: nat)
    ensures r * ItemsPerPage >= n
    ensures n > 0 ==> (r - 1) * ItemsPerPage < n
    ensures r == 0 <==> n == 0
  {
    (n + ItemsPerPage - 1) / ItemsPerPage
  }

  /** Pages 1 to k laid end to end. */
  function PagesUpTo<T>(data: seq<T>, k: nat): seq<T> {
    if k == 0 then [] else PagesUpTo(data, k - 1) + GetPaginatedData(data, k)
  }

  lemma {:induction false} PagesUpToPrefix<T>(data: seq<T>, k: nat)
    ensures PagesUpTo(data, k) == data[..Min(k * ItemsPerPage, |data|)]
  {
    if k > 0 {
      PagesUpToPrefix(data, k - 1);
      var start := (k - 1) * ItemsPerPage;
      if start < |data| {
        assert data[..Min(k * ItemsPerPage, |data|)]
          == data[..start] + data[start..Min(k * ItemsPerPage, |data|)];
      }
    }
  }

  /** Every page from 1 to getTotalPages, in turn, shows the whole list exactly once. */
  lemma PagesCoverList<T>(data: seq<T>)
    ensures PagesUpTo(data, GetTotalPages(|data|)) == data
  {
    PagesUpToPrefix(data, GetTotalPages(|data|));
  }

  // ----- the "Showing a - b of n" label -----

  /** The first and last positions (from 1) the label names for page `page` of `n` items. */
  function ShowingRange(page: int, n: nat): (r: (int, int))
    ensures r.1 <= n
    ensures page >= 1 ==> r.0 >= 1
    ensures page >= 1 ==> (r.0 <= r.1 <==> (page - 1) * ItemsPerPage < n)
  {
    ((page - 1) * ItemsPerPage + 1, Min(page * ItemsPerPage, n))
  }

  /** On an existing page the label names exactly the items shown. */
  lemma ShowingRangeMatchesPage<T>(data: seq<T>, page: int)
    requires 1 <= page <= GetTotalPages(|data|)
    ensures var (a, b) := ShowingRange(page, |data|);
      && 1 <= a <= b <= |data|
      && GetPaginatedData(data, page) == data[a - 1..b]
  {
    PageContents(data, page);
  }

  // ----- page buttons -----

  datatype PageItem = PageButton(page: int, isCurrent: bool) | PageEllipsis | PageHidden

  /** What PaginationControls renders for page `page`. */
  function PageItemFor(page: int, current: int, total: int): (r: PageItem)
    ensures r.PageButton? ==> r.page == page && (r.isCurrent <==> page == current)
    ensures total <= MaxFullPages || page == current || page == 1 || page == total ==> r.PageButton?
  {
    if total <= MaxFullPages then PageButton(page, page == current)
    else if page == 1 || page == total || (current - 1 <= page <= current + 1) then
      PageButton(page, page == current)
    else if page == current - 2 || page == current + 2 then PageEllipsis
    else PageHidden
  }

  /** The items for pages 1 to `total`. */
  function PageItems(current: int, total: nat): (r: seq<PageItem>)
    ensures |r| == total
    ensures forall i :: 0 <= i < total ==> r[i] == PageItemFor(i + 1, current, total)
  {
    seq(total, i requires 0 <= i < total => PageItemFor(i + 1, current, total))
  }

  /** With few pages every page is a button; otherwise exactly the first,
      the last and the neighbours of the current page are, current±2 are
      ellipses unless already buttons, and the rest are hidden. */
  lemma PageItemRule(page: int, current: int, total: int)
    requires 1 <= page <= total
    ensures total <= MaxFullPages ==> PageItemFor(page, current, total).PageButton?
    ensures total > MaxFullPages ==>
      (PageItemFor(page, current, total).PageButton? <==>
        page == 1 || page == total || current - 1 <= page <= current + 1)
    ensures total > MaxFullPages ==>
      (PageItemFor(page, current, total).PageEllipsis? <==>
        !(page == 1 || page == total || current - 1 <= page <= current + 1)
        && (page == current - 2 || page == current + 2))
    ensures PageItemFor(page, current, total).PageButton? ==>
      PageItemFor(page, current, total) == PageButton(page, page == current)
  {
  }

  /** The pages that are not hidden. */
  function VisiblePages(current: int, total: nat): set<int> {
    set p | 1 <= p <= total && !PageItemFor(p, current, total).PageHidden?
  }

  /** Abbreviated controls show at most seven items. */
  lemma AtMostSevenVisible(current: int, total: nat)
    requires total > MaxFullPages
    ensures |VisiblePages(current, total)| <= 7
  {
    var candidates := {1, total, current - 2, current - 1, current, current + 1, current + 2};
    assert VisiblePages(current, total) <= candidates;
    SubsetCard(VisiblePages(current, total), candidates);
    SevenAtMost(1, total, current);
  }

  lemma SevenAtMost(x: int, y: int, c: int)
    ensures |{x, y, c - 2, c - 1, c, c + 1, c + 2}| <= 7
  {
  }

  /** The first page, the last page and the current page always get a button. */
  lemma AnchorsAreButtons(current: int, total: nat)
    requires 1 <= current <= total
    ensures PageItemFor(1, current, total) == PageButton(1, current == 1)
    ensures PageItemFor(total, current, total) == PageButton(total, current == total)
    ensures PageItemFor(current, current, total) == PageButton(current, true)
  {
  }

  /** Previous is disabled on the first page. */
  predicate PreviousDisabled(current: int) {
    current == 1
  }

  /** Next is disabled on the last page. */
  predicate NextDisabled(current: int, total: int) {
    current == total
  }

  /** The controls are drawn only when there is more than one page. */
  predicate ControlsShown(total: int) {
    total > 1
  }

  /** Within the pages, Previous and Next stay inside 1..total. */
  lemma PreviousAndNextStayInRange(current: int, total: int)
    requires 1 <= current <= total
    ensures !PreviousDisabled(current) ==> 1 <= current - 1 <= total
    ensures !NextDisabled(current, total) ==> 1 <= current + 1 <= total
  {
  }

  /** The page counter is never clamped after a reload: left on page 3 of a
      list that shrank to 20 items, the label reads "Showing 21 - 20 of 20",
      the page is empty and Next is still enabled. */
  lemma StalePageShowsEmptyRange(data: seq<int>)
    requires |data| == 20
    ensures ShowingRange(3, |data|) == (21, 20)
    ensures GetPaginatedData(data, 3) == []
    ensures GetTotalPages(|data|) == 2 && !NextDisabled(3, GetTotalPages(|data|))
  {
  }

  /** The page to display: the counter clamped to 1..total (1 for an empty list). */
  function ClampPage(page: int, total: nat): (r: int)
    ensures 1 <= r && (total > 0 ==> r <= total)
    ensures 1 <= page <= total ==> r == page
  {
    if page < 1 || total == 0 then 1 else Min(page, total)
  }

  /** The label for the clamped page: for a non-empty list it names a
      non-empty range inside the list. */
  function ShowingRangeClamped(page: int, n: nat): (r: (int, int))
    ensures n > 0 ==> 1 <= r.0 <= r.1 <= n
  {
    ShowingRange(ClampPage(page, GetTotalPages(n)), n)
  }

  /** Showing the clamped page keeps label and rows in agreement. */
  lemma ClampedLabelMatchesRows<T>(data: seq<T>, page: int)
    requires |data| > 0
    ensures var (a, b) := ShowingRangeClamped(page, |data|);
      GetPaginatedData(data, ClampPage(page, GetTotalPages(|data|))) == data[a - 1..b]
    ensures var total := GetTotalPages(|data|);
      page >= total ==> NextDisabled(ClampPage(page, total), total)
  {
    ShowingRangeMatchesPage(data, ClampPage(page, GetTotalPages(|data|)));
  }

  // ----- lists derived from the loaded rows -----

  /** getFilteredInternalTypes: the internal types of the chosen type, in their loaded order. */
  function FilteredInternalTypes(internalTypes: seq<InternalType>, typeId: int): (r: seq<InternalType>)
    ensures forall it :: it in r <==> it in internalTypes && it.typeId == typeId
  {
    Filter(internalTypes, (it: InternalType) => it.typeId == typeId)
  }

  lemma FilteredInternalTypesInOrder(internalTypes: seq<InternalType>, typeId: int)
    ensures IsSubsequence(FilteredInternalTypes(internalTypes, typeId), internalTypes)
  {
    FilterIsSubsequence(internalTypes, (it: InternalType) => it.typeId == typeId);
  }

  /** Questions attached to passage `passageId`. */
  function InPassage(passageId: int): Question -> bool {
    (q: Question) => q.passageId == Some(passageId)
  }

  /** Questions attached to passage `passageId`; a question without a passage belongs to none. */
  function PassageQuestionCount(questions: seq<Question>, passageId: int): (r: nat)
    ensures r <= |questions|
    ensures r == 0 <==> forall q :: q in questions ==> q.passageId != Some(passageId)
    ensures r == |PositionsWhere(questions, InPassage(passageId))|
  {
    var rows := Filter(questions, InPassage(passageId));
    assert rows == [] || rows[0] in rows;
    FilterCountsPositions(questions, InPassage(passageId));
    |rows|
  }

  function HasStatus(status: string): Question -> bool {
    (q: Question) => q.status == status
  }

  /** The active and draft counts of the summary cards. */
  function StatusCount(questions: seq<Question>, status: string): (r: nat)
    ensures r <= |questions|
    ensures r == |PositionsWhere(questions, HasStatus(status))|
  {
    FilterCountsPositions(questions, HasStatus(status));
    |Filter(questions, HasStatus(status))|
  }

  /** A question is never counted as both active and draft. */
  lemma StatusCountsBounded(questions: seq<Question>)
    ensures StatusCount(questions, "active") + StatusCount(questions, "draft") <= |questions|
  {
    FilterDisjointCounts(questions, HasStatus("active"), HasStatus("draft"));
  }

  // ----- form and page state -----

  /** The question form's fields. */
  datatype QuestionForm = QuestionForm(
    questionTitle: string, questionText: string, questionImage: string,
    mcA: string, mcB: string, mcC: string, mcD: string, mcCorrect: string,
    typeId: int, internalTypeId: int, passageId: Option<int>, questionOrder: int,
    explanationImage: string, hintImage: string, tags: string, status: string)

  datatype PassageForm = PassageForm(passageTitle: string, passageImage: string, status: string)

  const EmptyQuestionForm: QuestionForm := QuestionForm(
    "", "", "", "", "", "", "", "A", 1, 1, None, 1, "", "", "", "draft")

  const EmptyPassageForm: PassageForm := PassageForm("", "", "draft")

  /** JavaScript's `s || fallback` on a nullable string. */
  function TextOr(s: Option<string>, fallback: string): (r: string)
    ensures s.Some? && s.value != "" ==> r == s.value
    ensures (s.None? || s.value == "") ==> r == fallback
  {
    if s.Some? && s.value != "" then s.value else fallback
  }

  /** JavaScript's `n || fallback` on a number. */
  function NumberOr(n: int, fallback: int): (r: int)
    ensures r == if n != 0 then n else fallback
  {
    if n != 0 then n else fallback
  }

  /** openEditQuestion's form: each field of the row, or the default where the row's value is falsy. */
  function FormFromQuestion(q: Question): (f: QuestionForm)
    ensures f.mcCorrect != "" && f.status != ""
    ensures f.typeId != 0 && f.internalTypeId != 0 && f.questionOrder != 0
    ensures f.passageId != Some(0)
    ensures f.questionText == q.questionText
    ensures f.mcA == q.mcA && f.mcB == q.mcB && f.mcC == q.mcC && f.mcD == q.mcD
    ensures f.questionTitle == q.questionTitle.GetOr("") && f.questionImage == q.questionImage.GetOr("")
    ensures f.explanationImage == q.explanationImage.GetOr("") && f.hintImage == q.hintImage.GetOr("")
    ensures f.tags == q.tags.GetOr("")
    ensures q.mcCorrect != "" ==> f.mcCorrect == q.mcCorrect
    ensures q.mcCorrect == "" ==> f.mcCorrect == "A"
    ensures q.typeId != 0 ==> f.typeId == q.typeId
    ensures q.typeId == 0 ==> f.typeId == 1
    ensures q.internalTypeId != 0 ==> f.internalTypeId == q.internalTypeId
    ensures q.internalTypeId == 0 ==> f.internalTypeId == 1
    ensures q.passageId != Some(0) ==> f.passageId == q.passageId
    ensures q.passageId == Some(0) ==> f.passageId == None
    ensures q.questionOrder != 0 ==> f.questionOrder == q.questionOrder
    ensures q.questionOrder == 0 ==> f.questionOrder == 1
    ensures q.status != "" ==> f.status == q.status
    ensures q.status == "" ==> f.status == "draft"
  {
    QuestionForm(
      TextOr(q.questionTitle, ""), TextOr(Some(q.questionText), ""), TextOr(q.questionImage, ""),
      TextOr(Some(q.mcA), ""), TextOr(Some(q.mcB), ""), TextOr(Some(q.mcC), ""), TextOr(Some(q.mcD), ""),
      TextOr(Some(q.mcCorrect), "A"),
      NumberOr(q.typeId, 1), NumberOr(q.internalTypeId, 1),
      if q.passageId.Some? && q.passageId.value != 0 then q.passageId else None,
      NumberOr(q.questionOrder, 1),
      TextOr(q.explanationImage, ""), TextOr(q.hintImage, ""), TextOr(q.tags, ""),
      TextOr(Some(q.status), "draft"))
  }

  /** openEditPassage's form. */
  function FormFromPassage(p: Passage): (f: PassageForm)
    ensures f.status != ""
    ensures p.status != "" ==> f.status == p.status
    ensures p.status == "" ==> f.status == "draft"
    ensures f.passageImage == p.passageImage
    ensures p.passageTitle.Some? ==> f.passageTitle == p.passageTitle.value
    ensures p.passageTitle.None? ==> f.passageTitle == ""
  {
    PassageForm(TextOr(p.passageTitle, ""), TextOr(Some(p.passageImage), ""), TextOr(Some(p.status), "draft"))
  }

  /** The state cells of the client. */
  class AppState {
    var questionsCurrentPage: int
    var passagesCurrentPage: int
    var questionForm: QuestionForm
    var passageForm: PassageForm
    var editingQuestion: Option<Question>
    var editingPassage: Option<Passage>
    var showQuestionModal: bool
    var showPassageModal: bool

    /** A record is only being edited while its modal is open. */
    ghost predicate Valid()
      reads this
    {
      && (editingQuestion.Some? ==> showQuestionModal)
      && (editingPassage.Some? ==> showPassageModal)
    }

    constructor ()
      ensures Valid()
      ensures questionsCurrentPage == 1 && passagesCurrentPage == 1
      ensures questionForm == EmptyQuestionForm && passageForm == EmptyPassageForm
      ensures editingQuestion.None? && editingPassage.None?
      ensures !showQuestionModal && !showPassageModal
    {
      questionsCurrentPage := 1;
      passagesCurrentPage := 1;
      questionForm := EmptyQuestionForm;
      passageForm := EmptyPassageForm;
      editingQuestion := None;
      editingPassage := None;
      showQuestionModal := false;
      showPassageModal := false;
    }

    /** handlePageChange: moves the named list to `page`; the other list and
        an unknown list name change nothing. */
    method HandlePageChange(page: int, kind: string)
      modifies this
      ensures kind == "questions" ==> questionsCurrentPage == page && passagesCurrentPage == old(passagesCurrentPage)
      ensures kind == "passages" ==> passagesCurrentPage == page && questionsCurrentPage == old(questionsCurrentPage)
      ensures kind != "questions" && kind != "passages" ==>
        questionsCurrentPage == old(questionsCurrentPage) && passagesCurrentPage == old(passagesCurrentPage)
      ensures questionForm == old(questionForm) && passageForm == old(passageForm)
      ensures editingQuestion == old(editingQuestion) && editingPassage == old(editingPassage)
      ensures showQuestionModal == old(showQuestionModal) && showPassageModal == old(showPassageModal)
    {
      if kind == "questions" {
        questionsCurrentPage := page;
      } else if kind == "passages" {
        passagesCurrentPage := page;
      }
    }

    /** resetQuestionForm. */
    method ResetQuestionForm()
      modifies this
      ensures questionForm == EmptyQuestionForm
      ensures questionsCurrentPage == old(questionsCurrentPage) && passagesCurrentPage == old(passagesCurrentPage)
      ensures passageForm == old(passageForm)
      ensures editingQuestion == old(editingQuestion) && editingPassage == old(editingPassage)
      ensures showQuestionModal == old(showQuestionModal) && showPassageModal == old(showPassageModal)
    {
      questionForm := EmptyQuestionForm;
    }

    /** resetPassageForm. */
    method ResetPassageForm()
      modifies this
      ensures passageForm == EmptyPassageForm
      ensures questionsCurrentPage == old(questionsCurrentPage) && passagesCurrentPage == old(passagesCurrentPage)
      ensures questionForm == old(questionForm)
      ensures editingQuestion == old(editingQuestion) && editingPassage == old(editingPassage)
      ensures showQuestionModal == old(showQuestionModal) && showPassageModal == old(showPassageModal)
    {
      passageForm := EmptyPassageForm;
    }

    /** openAddQuestion: an empty form in create mode, modal open. */
    method OpenAddQuestion()
      requires Valid()
      modifies this
      ensures Valid()
      ensures editingQuestion.None? && questionForm == EmptyQuestionForm && showQuestionModal
      ensures questionsCurrentPage == old(questionsCurrentPage) && passagesCurrentPage == old(passagesCurrentPage)
      ensures passageForm == old(passageForm) && editingPassage == old(editingPassage)
      ensures showPassageModal == old(showPassageModal)
    {
      editingQuestion := None;
      ResetQuestionForm();
      showQuestionModal := true;
    }

    /** openEditQuestion: the row's values in the form, edit mode, modal open. */
    method OpenEditQuestion(q: Question)
      requires Valid()
      modifies this
      ensures Valid()
      ensures editingQuestion == Some(q) && questionForm == FormFromQuestion(q) && showQuestionModal
      ensures questionsCurrentPage == old(questionsCurrentPage) && passagesCurrentPage == old(passagesCurrentPage)
      ensures passageForm == old(passageForm) && editingPassage == old(editingPassage)
      ensures showPassageModal == old(showPassageModal)
    {
      editingQuestion := Some(q);
      questionForm := FormFromQuestion(q);
      showQuestionModal := true;
    }

    /** The cancel button, and the end of a successful save: modal closed,
        nothing being edited, form emptied. */
    method CloseQuestionModal()
      requires Valid()
      modifies this
      ensures Valid()
      ensures !showQuestionModal && editingQuestion.None? && questionForm == EmptyQuestionForm
      ensures questionsCurrentPage == old(questionsCurrentPage) && passagesCurrentPage == old(passagesCurrentPage)
      ensures passageForm == old(passageForm) && editingPassage == old(editingPassage)
      ensures showPassageModal == old(showPassageModal)
    {
      showQuestionModal := false;
      editingQuestion := None;
      ResetQuestionForm();
    }

    /** openAddPassage. */
    method OpenAddPassage()
      requires Valid()
      modifies this
      ensures Valid()
      ensures editingPassage.None? && passageForm == EmptyPassageForm && showPassageModal
      ensures questionsCurrentPage == old(questionsCurrentPage) && passagesCurrentPage == old(passagesCurrentPage)
      ensures questionForm == old(questionForm) && editingQuestion == old(editingQuestion)
      ensures showQuestionModal == old(showQuestionModal)
    {
      editingPassage := None;
      ResetPassageForm();
      showPassageModal := true;
    }

    /** openEditPassage. */
    method OpenEditPassage(p: Passage)
      requires Valid()
      modifies this
      ensures Valid()
      ensures editingPassage == Some(p) && passageForm == FormFromPassage(p) && showPassageModal
      ensures questionsCurrentPage == old(questionsCurrentPage) && passagesCurrentPage == old(passagesCurrentPage)
      ensures questionForm == old(questionForm) && editingQuestion == old(editingQuestion)
      ensures showQuestionModal == old(showQuestionModal)
    {
      editingPassage := Some(p);
      passageForm := FormFromPassage(p);
      showPassageModal := true;
    }

    /** The passage modal's cancel button and the end of a successful save. */
    method ClosePassageModal()
      requires Valid()
      modifies this
      ensures Valid()
      ensures !showPassageModal && editingPassage.None? && passageForm == EmptyPassageForm
      ensures questionsCurrentPage == old(questionsCurrentPage) && passagesCurrentPage == old(passagesCurrentPage)
      ensures questionForm == old(questionForm) && editingQuestion == old(editingQuestion)
      ensures showQuestionModal == old(showQuestionModal)
    {
      showPassageModal := false;
      editingPassage := None;
      ResetPassageForm();
    }
  }
}
