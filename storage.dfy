/** The data-access layer of the question bank: the read queries (joins,
    filters, ordering, windows and counts) as functions of the tables, and the
    store itself as a class whose writes follow the schema's constraints. */
module Storage {
  import opened Wrappers
  import opened Seqs
  import opened Strings
  import opened Schema

  const DefaultLimit: int := 50
  const DefaultOffset: int := 0
  /** The type filter value that means "every type". */
  const AllTypes: string := "all"
  const ActiveStatus: string := "active"
  const VerbalTypeName: string := "لفظي"
  const QuantTypeName: string := "كمي"
  const ReadingComprehensionName: string := "استيعاب المقروء"
  const VerbalAnalogiesName: string := "التناظر اللفظي"
  const SentenceCompletionName: string := "إكمال الجمل"
  const ContextualErrorName: string := "الخطأ السياقي"

  /** A question row with the names of its type and internal type and, when it
      has one, the title and image of its passage. */
  datatype QuestionDetails = QuestionDetails(
    question: Question, typeName: string, internalName: string,
    passageTitle: Option<string>, passageImage: Option<string>)

  /** Why the store refuses a LIMIT/OFFSET query. */
  datatype QueryError = NegativeOffset | NegativeLimit

  // ----- lookups by primary key -----

  function LookupType(t: Tables, typeId: int): (r: Option<QuestionType>)
    ensures r.Some? ==> r.value in t.questionTypes && r.value.typeId == typeId
    ensures r.None? <==> !HasQuestionType(t, typeId)
  {
    First(t.questionTypes, (ty: QuestionType) => ty.typeId == typeId)
  }

  function LookupInternalType(t: Tables, internalTypeId: int): (r: Option<InternalType>)
    ensures r.Some? ==> r.value in t.internalTypes && r.value.internalTypeId == internalTypeId
    ensures r.None? <==> !HasInternalType(t, internalTypeId)
  {
    First(t.internalTypes, (it: InternalType) => it.internalTypeId == internalTypeId)
  }

  function LookupPassage(t: Tables, passageId: int): (r: Option<Passage>)
    ensures r.Some? ==> r.value in t.passages && r.value.passageId == passageId
    ensures r.None? <==> !HasPassage(t, passageId)
  {
    First(t.passages, (p: Passage) => p.passageId == passageId)
  }

  /** JavaScript's `v || undefined` on a nullable text column: NULL and the empty string both become undefined. */
  function OrUndefined(v: Option<string>): (r: Option<string>)
    ensures r.Some? <==> v.Some? && v.value != ""
    ensures r.Some? ==> r == v
  {
    if v.Some? && v.value != "" then v else None
  }

  // ----- the joined rows -----

  /** The detail row of `q`: inner joins on its type and internal type, a left
      join on its passage. None when an inner join finds nothing. */
  function JoinRow(t: Tables, q: Question): (r: Option<QuestionDetails>)
    ensures r.Some? <==> HasQuestionType(t, q.typeId) && HasInternalType(t, q.internalTypeId)
    ensures r.Some? ==> r.value.question == q
    ensures r.Some? && (q.passageId.None? || !HasPassage(t, q.passageId.value)) ==>
      r.value.passageTitle.None? && r.value.passageImage.None?
  {
    var ty := LookupType(t, q.typeId);
    var it := LookupInternalType(t, q.internalTypeId);
    if ty.None? || it.None? then None
    else
      var p := if q.passageId.Some? then LookupPassage(t, q.passageId.value) else None;
      Some(QuestionDetails(q, ty.value.typeName, it.value.internalName,
        OrUndefined(if p.Some? then p.value.passageTitle else None),
        OrUndefined(if p.Some? then Some(p.value.passageImage) else None)))
  }

  /** The detail rows of the questions in `qs` that survive the inner joins, in order. */
  function Joined(t: Tables, qs: seq<Question>): (r: seq<QuestionDetails>)
    ensures |r| <= |qs|
    ensures forall d :: d in r ==> d.question in qs && JoinRow(t, d.question) == Some(d)
    ensures forall q :: q in qs && JoinRow(t, q).Some? ==> JoinRow(t, q).value in r
  {
    if qs == [] then []
    else
      var rest := Joined(t, qs[1..]);
      match JoinRow(t, qs[0])
      case Some(d) => [d] + rest
      case None => rest
  }

  function DetailQNo(d: QuestionDetails): int { d.question.qNo }

  /** Distinct questions give detail rows with distinct qNos. */
  lemma {:induction false} JoinedUnique(t: Tables, qs: seq<Question>)
    requires UniqueBy(qs, QNoOf)
    ensures UniqueBy(Joined(t, qs), DetailQNo)
  {
    if qs != [] {
      var tail := qs[1..];
      assert UniqueBy(tail, QNoOf);
      JoinedUnique(t, tail);
      var rest := Joined(t, tail);
      var row := JoinRow(t, qs[0]);
      if row.Some? {
        assert Joined(t, qs) == [row.value] + rest;
        forall d | d in rest ensures DetailQNo(d) != DetailQNo(row.value) {
          assert d.question in tail;
          QNoAfterHead(qs, d.question);
        }
        UniqueByPrepend(rest, row.value, DetailQNo);
      }
    }
  }

  /** In a key-unique sequence no later element shares the head's key. */
  lemma QNoAfterHead(qs: seq<Question>, q: Question)
    requires qs != [] && UniqueBy(qs, QNoOf) && q in qs[1..]
    ensures q.qNo != qs[0].qNo
  {
    var j :| 0 <= j < |qs[1..]| && qs[1..][j] == q;
    assert qs[j + 1] == q;
    assert QNoOf(qs[0]) != QNoOf(qs[j + 1]);
  }

  // ----- filters of getQuestions -----

  /** A search term is applied when it is present and not empty (JavaScript truthiness). */
  predicate SearchActive(search: Option<string>) {
    search.Some? && search.value != ""
  }

  /** A type filter is applied when it is present, not empty and not "all". */
  predicate TypeFilterActive(typeFilter: Option<string>) {
    typeFilter.Some? && typeFilter.value != "" && typeFilter.value != AllTypes
  }

  /** LIKE '%term%' on the text or on the title; a NULL title never matches. */
  predicate MatchesSearch(d: QuestionDetails, term: string) {
    Contains(d.question.questionText, term)
    || (d.question.questionTitle.Some? && Contains(d.question.questionTitle.value, term))
  }

  /** The WHERE clause of getQuestions, chosen branch by branch as the source
      does; it amounts to applying each active filter independently. */
  function RowFilter(search: Option<string>, typeFilter: Option<string>): (r: QuestionDetails -> bool)
    ensures forall d :: r(d) <==>
      && (SearchActive(search) ==> MatchesSearch(d, search.value))
      && (TypeFilterActive(typeFilter) ==> d.typeName == typeFilter.value)
  {
    if SearchActive(search) && TypeFilterActive(typeFilter) then
      (d: QuestionDetails) => MatchesSearch(d, search.value) && d.typeName == typeFilter.value
    else if SearchActive(search) then
      (d: QuestionDetails) => MatchesSearch(d, search.value)
    else if TypeFilterActive(typeFilter) then
      (d: QuestionDetails) => d.typeName == typeFilter.value
    else
      (d: QuestionDetails) => true
  }

  /** ORDER BY qNo DESC. */
  function QNoDesc(): (QuestionDetails, QuestionDetails) -> bool {
    (a: QuestionDetails, b: QuestionDetails) => a.question.qNo >= b.question.qNo
  }

  lemma QNoDescTotal()
    ensures TotalPreorder(QNoDesc())
  {
  }

  /** The OFFSET and LIMIT in effect: the defaults 0 and 50 for missing values;
      a negative value is an error, OFFSET checked first. */
  function EffectiveWindow(limit: Option<int>, offset: Option<int>): (r: Result<(nat, nat), QueryError>)
    ensures r.Err? <==> offset.GetOr(DefaultOffset) < 0 || limit.GetOr(DefaultLimit) < 0
    ensures r.Ok? ==> r.value == (offset.GetOr(DefaultOffset), limit.GetOr(DefaultLimit))
  {
    var off := offset.GetOr(DefaultOffset);
    var lim := limit.GetOr(DefaultLimit);
    if off < 0 then Err(NegativeOffset)
    else if lim < 0 then Err(NegativeLimit)
    else Ok((off, lim))
  }

  /** The filtered and ordered rows before OFFSET/LIMIT. */
  function OrderedMatches(t: Tables, search: Option<string>, typeFilter: Option<string>): (r: seq<QuestionDetails>)
    ensures Sorted(r, QNoDesc())
    ensures forall d :: d in r <==> d in Joined(t, t.questions) && RowFilter(search, typeFilter)(d)
  {
    var rows := Filter(Joined(t, t.questions), RowFilter(search, typeFilter));
    QNoDescTotal();
    SortBySorted(rows, QNoDesc());
    SortByMembers(rows, QNoDesc());
    SortBy(rows, QNoDesc())
  }

  /** getQuestions: the joined rows that pass the active filters, newest qNo
      first, after skipping `offset` of them and keeping at most `limit`. */
  function GetQuestions(t: Tables, limit: Option<int>, offset: Option<int>,
                        search: Option<string>, typeFilter: Option<string>): (r: Result<seq<QuestionDetails>, QueryError>)
    ensures r.Err? <==> offset.GetOr(DefaultOffset) < 0 || limit.GetOr(DefaultLimit) < 0
    ensures r.Ok? ==> |r.value| <= limit.GetOr(DefaultLimit)
    ensures r.Ok? ==> Sorted(r.value, QNoDesc())
    ensures r.Ok? ==> forall d :: d in r.value ==>
      && d.question in t.questions && JoinRow(t, d.question) == Some(d)
      && (SearchActive(search) ==> MatchesSearch(d, search.value))
      && (TypeFilterActive(typeFilter) ==> d.typeName == typeFilter.value)
    ensures r.Ok? ==>
      var (off, lim) := EffectiveWindow(limit, offset).value;
      var rows := OrderedMatches(t, search, typeFilter);
      && |r.value| == (if off >= |rows| then 0 else Min(lim, |rows| - off))
      && forall i :: 0 <= i < |r.value| ==> r.value[i] == rows[off + i]
  {
    match EffectiveWindow(limit, offset)
    case Err(e) => Err(e)
    case Ok((off, lim)) =>
      var rows := OrderedMatches(t, search, typeFilter);
      WindowSorted(rows, off, lim, QNoDesc());
      Ok(Window(rows, off, lim))
  }

  /** With unique question keys the listing is strictly descending in qNo. */
  lemma GetQuestionsStrictlyDescending(t: Tables, limit: Option<int>, offset: Option<int>,
                                       search: Option<string>, typeFilter: Option<string>)
    requires UniqueBy(t.questions, QNoOf)
    requires GetQuestions(t, limit, offset, search, typeFilter).Ok?
    ensures var rows := GetQuestions(t, limit, offset, search, typeFilter).value;
      forall i, j :: 0 <= i < j < |rows| ==> rows[i].question.qNo > rows[j].question.qNo
  {
    var (off, lim) := EffectiveWindow(limit, offset).value;
    var joined := Joined(t, t.questions);
    var matching := Filter(joined, RowFilter(search, typeFilter));
    JoinedUnique(t, t.questions);
    FilterUniqueBy(joined, RowFilter(search, typeFilter), DetailQNo);
    UniqueByPermutation(matching, SortBy(matching, QNoDesc()), DetailQNo);
    WindowUniqueBy(SortBy(matching, QNoDesc()), off, lim, DetailQNo);
    var rows := GetQuestions(t, limit, offset, search, typeFilter).value;
    forall i, j | 0 <= i < j < |rows| ensures rows[i].question.qNo > rows[j].question.qNo {
      assert QNoDesc()(rows[i], rows[j]);
      assert DetailQNo(rows[i]) != DetailQNo(rows[j]);
    }
  }

  /** With offset 0 and a limit covering the table nothing is cut: a row is
      listed exactly when it joins and passes the active filters. */
  lemma GetQuestionsComplete(t: Tables, limit: int, search: Option<string>, typeFilter: Option<string>)
    requires limit >= |t.questions|
    ensures var r := GetQuestions(t, Some(limit), None, search, typeFilter);
      r.Ok? && forall q :: q in t.questions ==>
        ((exists d :: d in r.value && d.question == q) <==>
          && JoinRow(t, q).Some?
          && (SearchActive(search) ==> MatchesSearch(JoinRow(t, q).value, search.value))
          && (TypeFilterActive(typeFilter) ==> JoinRow(t, q).value.typeName == typeFilter.value))
  {
    var rows := OrderedMatches(t, search, typeFilter);
    var matching := Filter(Joined(t, t.questions), RowFilter(search, typeFilter));
    SortByMembers(matching, QNoDesc());
    assert |rows| <= |t.questions|;
    var r := GetQuestions(t, Some(limit), None, search, typeFilter);
    assert r.value == rows;
    forall q | q in t.questions
      ensures (exists d :: d in r.value && d.question == q) ==> JoinRow(t, q).Some?
    {
      if exists d :: d in r.value && d.question == q {
        var d :| d in r.value && d.question == q;
        assert JoinRow(t, q) == Some(d);
      }
    }
  }

  /** In a consistent store every question joins, so the unfiltered listing
      with offset 0 and a covering limit shows every question. */
  lemma ListingShowsEveryQuestion(t: Tables, limit: int, q: Question)
    requires Consistent(t) && limit >= |t.questions| && q in t.questions
    ensures exists d :: d in GetQuestions(t, Some(limit), None, None, None).value && d.question == q
  {
    assert QuestionReferencesExist(t, q);
    GetQuestionsComplete(t, limit, None, None);
  }

  /** A listed row of a question with a passage carries that passage's title and image, when not empty. */
  lemma JoinRowPassage(t: Tables, q: Question, p: Passage)
    requires Consistent(t) && q in t.questions && p in t.passages && q.passageId == Some(p.passageId)
    ensures JoinRow(t, q).Some?
    ensures JoinRow(t, q).value.passageTitle == OrUndefined(p.passageTitle)
    ensures JoinRow(t, q).value.passageImage == OrUndefined(Some(p.passageImage))
  {
    assert QuestionReferencesExist(t, q);
    var found := LookupPassage(t, p.passageId).value;
    UniqueByMembers(t.passages, PassageIdOf, found, p);
  }

  /** A listed row names the question's own type and internal type. */
  lemma JoinRowNames(t: Tables, q: Question, ty: QuestionType, it: InternalType)
    requires Consistent(t) && q in t.questions
    requires ty in t.questionTypes && ty.typeId == q.typeId
    requires it in t.internalTypes && it.internalTypeId == q.internalTypeId
    ensures JoinRow(t, q).Some?
    ensures JoinRow(t, q).value.typeName == ty.typeName
    ensures JoinRow(t, q).value.internalName == it.internalName
  {
    UniqueByMembers(t.questionTypes, TypeIdOf, LookupType(t, q.typeId).value, ty);
    UniqueByMembers(t.internalTypes, InternalTypeIdOf, LookupInternalType(t, q.internalTypeId).value, it);
  }

  // ----- single question -----

  /** getQuestion: the detail row of the question with key `qNo`, if it joins. */
  function GetQuestion(t: Tables, qNo: int): (r: Option<QuestionDetails>)
    ensures r.Some? ==>
      r.value.question.qNo == qNo && r.value.question in t.questions && JoinRow(t, r.value.question) == r
    ensures r.None? <==> forall q :: q in t.questions && q.qNo == qNo ==> JoinRow(t, q).None?
  {
    First(Joined(t, t.questions), (d: QuestionDetails) => d.question.qNo == qNo)
  }

  /** In a consistent store getQuestion finds exactly the stored keys. */
  lemma GetQuestionFindsStored(t: Tables, qNo: int)
    requires Consistent(t)
    ensures GetQuestion(t, qNo).None? <==> !HasQuestion(t, qNo)
  {
    if HasQuestion(t, qNo) {
      var q :| q in t.questions && q.qNo == qNo;
      assert QuestionReferencesExist(t, q);
    }
  }

  /** getQuestion returns the same detail row the listing shows for that question. */
  lemma GetQuestionAgreesWithListing(t: Tables, limit: Option<int>, offset: Option<int>,
                                     search: Option<string>, typeFilter: Option<string>, d: QuestionDetails)
    requires Consistent(t)
    requires GetQuestions(t, limit, offset, search, typeFilter).Ok?
    requires d in GetQuestions(t, limit, offset, search, typeFilter).value
    ensures GetQuestion(t, d.question.qNo) == Some(d)
  {
    var g := GetQuestion(t, d.question.qNo);
    GetQuestionFindsStored(t, d.question.qNo);
    UniqueByMembers(t.questions, QNoOf, g.value.question, d.question);
  }

  // ----- passages -----

  /** ORDER BY createdAt DESC. */
  function CreatedDesc(): (Passage, Passage) -> bool {
    (a: Passage, b: Passage) => a.createdAt >= b.createdAt
  }

  /** getPassages: every passage, newest first, windowed by offset and limit. */
  function GetPassages(t: Tables, limit: Option<int>, offset: Option<int>): (r: Result<seq<Passage>, QueryError>)
    ensures r.Err? <==> offset.GetOr(DefaultOffset) < 0 || limit.GetOr(DefaultLimit) < 0
    ensures r.Ok? ==> |r.value| <= limit.GetOr(DefaultLimit)
    ensures r.Ok? ==> forall p :: p in r.value ==> p in t.passages
    ensures r.Ok? ==> forall i, j :: 0 <= i < j < |r.value| ==> r.value[i].createdAt >= r.value[j].createdAt
    ensures r.Ok? && offset.GetOr(DefaultOffset) == 0 && limit.GetOr(DefaultLimit) >= |t.passages| ==>
      |r.value| == |t.passages| && forall p :: p in t.passages ==> p in r.value
    ensures r.Ok? ==>
      var (off, lim) := EffectiveWindow(limit, offset).value;
      var rows := SortBy(t.passages, CreatedDesc());
      && |r.value| == (if off >= |rows| then 0 else Min(lim, |rows| - off))
      && forall i :: 0 <= i < |r.value| ==> r.value[i] == rows[off + i]
  {
    match EffectiveWindow(limit, offset)
    case Err(e) => Err(e)
    case Ok((off, lim)) =>
      var r := Window(SortBy(t.passages, CreatedDesc()), off, lim);
      PassageWindowFacts(t, off, lim, r);
      Ok(r)
  }

  /** A window of the passages sorted newest first holds stored passages, newest first,
      and with offset 0 and a covering limit it holds all of them. */
  lemma PassageWindowFacts(t: Tables, off: nat, lim: nat, r: seq<Passage>)
    requires r == Window(SortBy(t.passages, CreatedDesc()), off, lim)
    ensures && (forall p :: p in r ==> p in t.passages)
      && (forall i, j :: 0 <= i < j < |r| ==> r[i].createdAt >= r[j].createdAt)
      && (off == 0 && lim >= |t.passages| ==> |r| == |t.passages| && forall p :: p in t.passages ==> p in r)
  {
    var rows := SortBy(t.passages, CreatedDesc());
    SortBySorted(t.passages, CreatedDesc());
    SortByMembers(t.passages, CreatedDesc());
    WindowSorted(rows, off, lim, CreatedDesc());
    assert forall i, j :: 0 <= i < j < |r| ==> CreatedDesc()(r[i], r[j]);
  }

  /** getPassage: the passage with key `passageId`, if any. */
  function GetPassage(t: Tables, passageId: int): (r: Option<Passage>)
    ensures r.Some? ==> r.value in t.passages && r.value.passageId == passageId
    ensures r.None? <==> !HasPassage(t, passageId)
  {
    LookupPassage(t, passageId)
  }

  // ----- types -----

  function TypeNameLe(): (QuestionType, QuestionType) -> bool {
    (a: QuestionType, b: QuestionType) => LexLe(a.typeName, b.typeName)
  }

  function InternalNameLe(): (InternalType, InternalType) -> bool {
    (a: InternalType, b: InternalType) => LexLe(a.internalName, b.internalName)
  }

  lemma TypeNameLeTotal()
    ensures TotalPreorder(TypeNameLe())
  {
    forall a: QuestionType, b: QuestionType ensures TypeNameLe()(a, b) || TypeNameLe()(b, a) {
      LexLeTotal(a.typeName, b.typeName);
    }
    forall a: QuestionType, b: QuestionType, c: QuestionType
      | TypeNameLe()(a, b) && TypeNameLe()(b, c) ensures TypeNameLe()(a, c)
    {
      LexLeTransitive(a.typeName, b.typeName, c.typeName);
    }
  }

  lemma InternalNameLeTotal()
    ensures TotalPreorder(InternalNameLe())
  {
    forall a: InternalType, b: InternalType ensures InternalNameLe()(a, b) || InternalNameLe()(b, a) {
      LexLeTotal(a.internalName, b.internalName);
    }
    forall a: InternalType, b: InternalType, c: InternalType
      | InternalNameLe()(a, b) && InternalNameLe()(b, c) ensures InternalNameLe()(a, c)
    {
      LexLeTransitive(a.internalName, b.internalName, c.internalName);
    }
  }

  /** getQuestionTypes: every question type, ordered by name. */
  function GetQuestionTypes(t: Tables): (r: seq<QuestionType>)
    ensures |r| == |t.questionTypes| && forall ty :: ty in r <==> ty in t.questionTypes
    ensures forall i, j :: 0 <= i < j < |r| ==> LexLe(r[i].typeName, r[j].typeName)
  {
    TypeNameLeTotal();
    SortBySorted(t.questionTypes, TypeNameLe());
    SortByMembers(t.questionTypes, TypeNameLe());
    var r := SortBy(t.questionTypes, TypeNameLe());
    assert forall i, j :: 0 <= i < j < |r| ==> TypeNameLe()(r[i], r[j]);
    r
  }

  /** The parent-type restriction of getInternalTypes applies for a truthy id (present and not 0). */
  predicate ParentFilterActive(typeId: Option<int>) {
    typeId.Some? && typeId.value != 0
  }

  /** Internal types under the question type `typeId`. */
  function UnderType(typeId: int): InternalType -> bool {
    (it: InternalType) => it.typeId == typeId
  }

  /** getInternalTypes: the internal types, only those of `typeId` when it is
      present and non-zero, ordered by name. */
  function GetInternalTypes(t: Tables, typeId: Option<int>): (r: seq<InternalType>)
    ensures forall it :: it in r <==>
      it in t.internalTypes && (ParentFilterActive(typeId) ==> it.typeId == typeId.value)
    ensures !ParentFilterActive(typeId) ==> |r| == |t.internalTypes|
    ensures multiset(r) ==
      multiset(if ParentFilterActive(typeId) then Filter(t.internalTypes, UnderType(typeId.value)) else t.internalTypes)
    ensures forall i, j :: 0 <= i < j < |r| ==> LexLe(r[i].internalName, r[j].internalName)
  {
    var rows :=
      if ParentFilterActive(typeId) then Filter(t.internalTypes, UnderType(typeId.value))
      else t.internalTypes;
    InternalNameLeTotal();
    SortBySorted(rows, InternalNameLe());
    SortByMembers(rows, InternalNameLe());
    var r := SortBy(rows, InternalNameLe());
    assert forall i, j :: 0 <= i < j < |r| ==> InternalNameLe()(r[i], r[j]);
    r
  }

  // ----- dashboard counts -----

  datatype DashboardStats = DashboardStats(
    totalQuestions: nat, activeQuestions: nat, totalPassages: nat, totalAttempts: nat,
    verbalQuestions: nat, quantQuestions: nat, readingComprehension: nat,
    verbalAnalogies: nat, sentenceCompletion: nat, contextualError: nat)

  /** Questions whose joined type has the name `name`. */
  function OfTypeNamed(t: Tables, name: string): Question -> bool {
    (q: Question) => exists ty :: ty in t.questionTypes && ty.typeId == q.typeId && ty.typeName == name
  }

  /** Questions whose joined internal type has the name `name`. */
  function OfInternalTypeNamed(t: Tables, name: string): Question -> bool {
    (q: Question) => exists it :: it in t.internalTypes && it.internalTypeId == q.internalTypeId && it.internalName == name
  }

  function IsActive(): Question -> bool {
    (q: Question) => q.status == ActiveStatus
  }

  /** getDashboardStats: ten independent counts. Each count is the number of
      positions of the questions table whose row matches its condition. */
  function GetDashboardStats(t: Tables): (r: DashboardStats)
    ensures r.totalQuestions == |t.questions| && r.totalPassages == |t.passages|
    ensures r.totalAttempts == |t.attempts|
    ensures r.activeQuestions == |PositionsWhere(t.questions, IsActive())|
    ensures r.verbalQuestions == |PositionsWhere(t.questions, OfTypeNamed(t, VerbalTypeName))|
    ensures r.quantQuestions == |PositionsWhere(t.questions, OfTypeNamed(t, QuantTypeName))|
    ensures r.readingComprehension == |PositionsWhere(t.questions, OfInternalTypeNamed(t, ReadingComprehensionName))|
    ensures r.verbalAnalogies == |PositionsWhere(t.questions, OfInternalTypeNamed(t, VerbalAnalogiesName))|
    ensures r.sentenceCompletion == |PositionsWhere(t.questions, OfInternalTypeNamed(t, SentenceCompletionName))|
    ensures r.contextualError == |PositionsWhere(t.questions, OfInternalTypeNamed(t, ContextualErrorName))|
    ensures r.activeQuestions <= r.totalQuestions
    ensures r.verbalQuestions <= r.totalQuestions && r.quantQuestions <= r.totalQuestions
    ensures r.readingComprehension <= r.totalQuestions && r.verbalAnalogies <= r.totalQuestions
    ensures r.sentenceCompletion <= r.totalQuestions && r.contextualError <= r.totalQuestions
  {
    FilterCountsPositions(t.questions, IsActive());
    FilterCountsPositions(t.questions, OfTypeNamed(t, VerbalTypeName));
    FilterCountsPositions(t.questions, OfTypeNamed(t, QuantTypeName));
    FilterCountsPositions(t.questions, OfInternalTypeNamed(t, ReadingComprehensionName));
    FilterCountsPositions(t.questions, OfInternalTypeNamed(t, VerbalAnalogiesName));
    FilterCountsPositions(t.questions, OfInternalTypeNamed(t, SentenceCompletionName));
    FilterCountsPositions(t.questions, OfInternalTypeNamed(t, ContextualErrorName));
    DashboardStats(
      |t.questions|,
      |Filter(t.questions, IsActive())|,
      |t.passages|,
      |t.attempts|,
      |Filter(t.questions, OfTypeNamed(t, VerbalTypeName))|,
      |Filter(t.questions, OfTypeNamed(t, QuantTypeName))|,
      |Filter(t.questions, OfInternalTypeNamed(t, ReadingComprehensionName))|,
      |Filter(t.questions, OfInternalTypeNamed(t, VerbalAnalogiesName))|,
      |Filter(t.questions, OfInternalTypeNamed(t, SentenceCompletionName))|,
      |Filter(t.questions, OfInternalTypeNamed(t, ContextualErrorName))|)
  }

  /** No question is both verbal and quantitative, so the two counts add up to at most the total. */
  lemma VerbalAndQuantBounded(t: Tables)
    requires Consistent(t)
    ensures var s := GetDashboardStats(t); s.verbalQuestions + s.quantQuestions <= s.totalQuestions
  {
    var v := OfTypeNamed(t, VerbalTypeName);
    var k := OfTypeNamed(t, QuantTypeName);
    forall q | q in t.questions ensures !(v(q) && k(q)) {
      if v(q) && k(q) {
        var ty1 :| ty1 in t.questionTypes && ty1.typeId == q.typeId && ty1.typeName == VerbalTypeName;
        var ty2 :| ty2 in t.questionTypes && ty2.typeId == q.typeId && ty2.typeName == QuantTypeName;
        UniqueByMembers(t.questionTypes, TypeIdOf, ty1, ty2);
        assert false;
      }
    }
    FilterDisjointCounts(t.questions, v, k);
  }

  /** Two differently named internal types never hold the same question. */
  lemma SubtypesDisjoint(t: Tables, n1: string, n2: string, q: Question)
    requires Consistent(t) && n1 != n2
    ensures !(OfInternalTypeNamed(t, n1)(q) && OfInternalTypeNamed(t, n2)(q))
  {
    if OfInternalTypeNamed(t, n1)(q) && OfInternalTypeNamed(t, n2)(q) {
      var a :| a in t.internalTypes && a.internalTypeId == q.internalTypeId && a.internalName == n1;
      var b :| b in t.internalTypes && b.internalTypeId == q.internalTypeId && b.internalName == n2;
      UniqueByMembers(t.internalTypes, InternalTypeIdOf, a, b);
      assert false;
    }
  }

  /** The four subtype counts add up to at most the total. */
  lemma SubtypeCountsBounded(t: Tables)
    requires Consistent(t)
    ensures var s := GetDashboardStats(t);
      s.readingComprehension + s.verbalAnalogies + s.sentenceCompletion + s.contextualError <= s.totalQuestions
  {
    var a := OfInternalTypeNamed(t, ReadingComprehensionName);
    var b := OfInternalTypeNamed(t, VerbalAnalogiesName);
    var c := OfInternalTypeNamed(t, SentenceCompletionName);
    var d := OfInternalTypeNamed(t, ContextualErrorName);
    forall q | q in t.questions ensures !(a(q) && b(q)) && !(c(q) && d(q)) && !(Either(a, b)(q) && Either(c, d)(q)) {
      SubtypesDisjoint(t, ReadingComprehensionName, VerbalAnalogiesName, q);
      SubtypesDisjoint(t, SentenceCompletionName, ContextualErrorName, q);
      SubtypesDisjoint(t, ReadingComprehensionName, SentenceCompletionName, q);
      SubtypesDisjoint(t, ReadingComprehensionName, ContextualErrorName, q);
      SubtypesDisjoint(t, VerbalAnalogiesName, SentenceCompletionName, q);
      SubtypesDisjoint(t, VerbalAnalogiesName, ContextualErrorName, q);
    }
    FilterDisjointCounts(t.questions, a, b);
    FilterDisjointCounts(t.questions, c, d);
    FilterDisjointCounts(t.questions, Either(a, b), Either(c, d));
  }

  /** After one verbal reading-comprehension question the counts are 1, 1, 0, 1, 0, 0, 0. */
  lemma StatsAfterFirstQuestion(t: Tables, q: Question, ty: QuestionType, it: InternalType)
    requires Consistent(t) && t.questions == [q]
    requires ty in t.questionTypes && ty.typeId == q.typeId && ty.typeName == VerbalTypeName
    requires it in t.internalTypes && it.internalTypeId == q.internalTypeId
    requires it.internalName == ReadingComprehensionName
    ensures var s := GetDashboardStats(t);
      && s.totalQuestions == 1 && s.verbalQuestions == 1 && s.quantQuestions == 0
      && s.readingComprehension == 1 && s.verbalAnalogies == 0
      && s.sentenceCompletion == 0 && s.contextualError == 0
  {
    assert OfTypeNamed(t, VerbalTypeName)(q);
    assert OfInternalTypeNamed(t, ReadingComprehensionName)(q);
    VerbalAndQuantBounded(t);
    SubtypeCountsBounded(t);
  }

  // ----- the store -----

  /** The store: five tables and the serial sequences behind their keys. */
  class DatabaseStorage {
    var questionTypes: seq<QuestionType>
    var internalTypes: seq<InternalType>
    var passages: seq<Passage>
    var questions: seq<Question>
    var attempts: seq<QuestionAttempt>
    /** The last value each serial sequence handed out. */
    var questionSeq: int
    var passageSeq: int
    var attemptSeq: int

    function State(): Tables
      reads this
    {
      Tables(questionTypes, internalTypes, passages, questions, attempts)
    }

    /** The schema's constraints hold and every key was issued by its sequence. */
    ghost predicate Valid()
      reads this
    {
      && Consistent(State())
      && (forall q :: q in questions ==> q.qNo <= questionSeq)
      && (forall p :: p in passages ==> p.passageId <= passageSeq)
      && (forall a :: a in attempts ==> a.attemptId <= attemptSeq)
    }

    constructor (t: Tables, lastQNo: int, lastPassageId: int, lastAttemptId: int)
      requires Consistent(t)
      requires forall q :: q in t.questions ==> q.qNo <= lastQNo
      requires forall p :: p in t.passages ==> p.passageId <= lastPassageId
      requires forall a :: a in t.attempts ==> a.attemptId <= lastAttemptId
      ensures Valid() && State() == t
      ensures questionSeq == lastQNo && passageSeq == lastPassageId && attemptSeq == lastAttemptId
    {
      questionTypes := t.questionTypes;
      internalTypes := t.internalTypes;
      passages := t.passages;
      questions := t.questions;
      attempts := t.attempts;
      questionSeq := lastQNo;
      passageSeq := lastPassageId;
      attemptSeq := lastAttemptId;
    }

    /** createQuestion: draws the next qNo (even when the insert is then
        refused) and adds the row with its defaults, or reports the violation. */
    method CreateQuestion(ins: InsertQuestion, now: Timestamp) returns (r: Result<Question, Violation>)
      requires Valid()
      modifies this
      ensures Valid()
      ensures questionSeq == old(questionSeq) + 1
      ensures passageSeq == old(passageSeq) && attemptSeq == old(attemptSeq)
      ensures var q := NewQuestion(ins, questionSeq, now);
        var out := InsertQuestionRow(old(State()), q);
        && (out.Ok? ==> r == Ok(q) && State() == out.value)
        && (out.Err? ==> r == Err(out.error) && State() == old(State()))
    {
      questionSeq := questionSeq + 1;
      var q := NewQuestion(ins, questionSeq, now);
      var out := InsertQuestionRow(State(), q);
      if out.Ok? {
        InsertQuestionKeepsConsistency(State(), q);
        questions := questions + [q];
        r := Ok(q);
      } else {
        r := Err(out.error);
      }
    }

    /** updateQuestion: patches the row with key `qNo` and touches updatedAt;
        the updated row, or None when no row has that key. */
    method UpdateQuestion(qNo: int, patch: QuestionPatch, now: Timestamp) returns (r: Result<Option<Question>, Violation>)
      requires Valid()
      modifies this
      ensures Valid()
      ensures questionSeq == old(questionSeq) && passageSeq == old(passageSeq) && attemptSeq == old(attemptSeq)
      ensures var out := UpdateQuestionRows(old(State()), qNo, patch, now);
        && (out.Ok? ==> State() == out.value && r == Ok(QuestionWithQNo(questions, qNo)))
        && (out.Err? ==> r == Err(out.error) && State() == old(State()))
    {
      var out := UpdateQuestionRows(State(), qNo, patch, now);
      if out.Ok? {
        UpdateQuestionKeepsConsistency(State(), qNo, patch, now);
        questions := out.value.questions;
        r := Ok(QuestionWithQNo(questions, qNo));
      } else {
        r := Err(out.error);
      }
    }

    /** deleteQuestion: removes the row with key `qNo` and, by cascade, its attempts. */
    method DeleteQuestion(qNo: int)
      requires Valid()
      modifies this
      ensures Valid()
      ensures State() == DeleteQuestionCascade(old(State()), qNo)
      ensures questionSeq == old(questionSeq) && passageSeq == old(passageSeq) && attemptSeq == old(attemptSeq)
    {
      var t := DeleteQuestionCascade(State(), qNo);
      DeleteQuestionKeepsConsistency(State(), qNo);
      questions := t.questions;
      attempts := t.attempts;
    }

    /** createPassage: draws the next passageId and adds the row with its defaults. */
    method CreatePassage(ins: InsertPassage, now: Timestamp) returns (r: Result<Passage, Violation>)
      requires Valid()
      modifies this
      ensures Valid()
      ensures passageSeq == old(passageSeq) + 1
      ensures questionSeq == old(questionSeq) && attemptSeq == old(attemptSeq)
      ensures var p := NewPassage(ins, passageSeq, now);
        var out := InsertPassageRow(old(State()), p);
        && (out.Ok? ==> r == Ok(p) && State() == out.value)
        && (out.Err? ==> r == Err(out.error) && State() == old(State()))
    {
      passageSeq := passageSeq + 1;
      var p := NewPassage(ins, passageSeq, now);
      var out := InsertPassageRow(State(), p);
      if out.Ok? {
        InsertPassageKeepsConsistency(State(), p);
        passages := passages + [p];
        r := Ok(p);
      } else {
        r := Err(out.error);
      }
    }

    /** updatePassage: patches the passage with key `passageId` and touches updatedAt. */
    method UpdatePassage(passageId: int, patch: PassagePatch, now: Timestamp) returns (r: Result<Option<Passage>, Violation>)
      requires Valid()
      modifies this
      ensures Valid()
      ensures questionSeq == old(questionSeq) && passageSeq == old(passageSeq) && attemptSeq == old(attemptSeq)
      ensures var out := UpdatePassageRows(old(State()), passageId, patch, now);
        && (out.Ok? ==> State() == out.value && r == Ok(LookupPassage(State(), passageId)))
        && (out.Err? ==> r == Err(out.error) && State() == old(State()))
    {
      var out := UpdatePassageRows(State(), passageId, patch, now);
      if out.Ok? {
        UpdatePassageKeepsConsistency(State(), passageId, patch, now);
        passages := out.value.passages;
        r := Ok(LookupPassage(State(), passageId));
      } else {
        r := Err(out.error);
      }
    }

    /** deletePassage: removes the passage and, by cascade, its questions and their attempts. */
    method DeletePassage(passageId: int)
      requires Valid()
      modifies this
      ensures Valid()
      ensures State() == DeletePassageCascade(old(State()), passageId)
      ensures questionSeq == old(questionSeq) && passageSeq == old(passageSeq) && attemptSeq == old(attemptSeq)
    {
      var t := DeletePassageCascade(State(), passageId);
      DeletePassageKeepsConsistency(State(), passageId);
      passages := t.passages;
      questions := t.questions;
      attempts := t.attempts;
    }

    /** createQuestionAttempt: draws the next attemptId and adds the row; the
        question's counters are not touched. */
    method CreateQuestionAttempt(ins: InsertQuestionAttempt, now: Timestamp) returns (r: Result<QuestionAttempt, Violation>)
      requires Valid()
      modifies this
      ensures Valid()
      ensures attemptSeq == old(attemptSeq) + 1
      ensures questionSeq == old(questionSeq) && passageSeq == old(passageSeq)
      ensures questions == old(questions)
      ensures var a := NewAttempt(ins, attemptSeq, now);
        var out := InsertAttemptRow(old(State()), a);
        && (out.Ok? ==> r == Ok(a) && State() == out.value)
        && (out.Err? ==> r == Err(out.error) && State() == old(State()))
    {
      attemptSeq := attemptSeq + 1;
      var a := NewAttempt(ins, attemptSeq, now);
      var t := State();
      var out := InsertAttemptRow(t, a);
      if out.Ok? {
        assert forall x :: x in t.attempts ==> x.attemptId != a.attemptId;
        InsertAttemptKeepsConsistency(t, a);
        attempts := attempts + [a];
        assert State() == out.value;
        r := Ok(a);
      } else {
        r := Err(out.error);
      }
    }
  }

  /** The row with key `qNo` among `qs`, as UPDATE ... RETURNING yields its first row. */
  function QuestionWithQNo(qs: seq<Question>, qNo: int): (r: Option<Question>)
    ensures r.Some? ==> r.value in qs && r.value.qNo == qNo
    ensures r.None? <==> forall q :: q in qs ==> q.qNo != qNo
  {
    First(qs, (q: Question) => q.qNo == qNo)
  }

  /** updateQuestion returns the patched row, or None exactly when no row has the key;
      every other row is unchanged. */
  lemma UpdateQuestionOutcome(t: Tables, qNo: int, patch: QuestionPatch, now: Timestamp, old_q: Question)
    requires Consistent(t) && UpdateQuestionRows(t, qNo, patch, now).Ok?
    requires old_q in t.questions && old_q.qNo == qNo
    ensures var u := UpdateQuestionRows(t, qNo, patch, now).value;
      && QuestionWithQNo(u.questions, qNo) == Some(ApplyQuestionPatch(old_q, patch, now))
      && (forall q :: q in t.questions && q.qNo != qNo ==> q in u.questions)
  {
    var u := UpdateQuestionRows(t, qNo, patch, now).value;
    PatchQuestionRowsKeys(t.questions, qNo, patch, now);
    var i :| 0 <= i < |t.questions| && t.questions[i] == old_q;
    var patched := ApplyQuestionPatch(old_q, patch, now);
    assert u.questions[i] == patched;
    forall y | y in u.questions && y.qNo == qNo ensures y == patched {
      var j :| 0 <= j < |u.questions| && u.questions[j] == y;
      UniqueByMembers(t.questions, QNoOf, t.questions[j], old_q);
    }
    FirstOfSingleton(u.questions, (q: Question) => q.qNo == qNo, patched);
    PatchKeepsOthers(t.questions, qNo, patch, now);
  }

  /** The rows with other keys are all still there after an update. */
  lemma PatchKeepsOthers(qs: seq<Question>, qNo: int, patch: QuestionPatch, now: Timestamp)
    ensures forall q :: q in qs && q.qNo != qNo ==> q in PatchQuestionRows(qs, qNo, patch, now)
  {
    var rows := PatchQuestionRows(qs, qNo, patch, now);
    forall q | q in qs && q.qNo != qNo ensures q in rows {
      var j :| 0 <= j < |qs| && qs[j] == q;
      assert rows[j] == q;
    }
  }

  /** The insertable fields of a created question come back from getQuestion,
      with its key, zero counters and the column defaults. */
  lemma CreateThenGet(t: Tables, ins: InsertQuestion, qNo: int, now: Timestamp)
    requires Consistent(t) && forall x :: x in t.questions ==> x.qNo != qNo
    requires InsertQuestionRow(t, NewQuestion(ins, qNo, now)).Ok?
    ensures var u := InsertQuestionRow(t, NewQuestion(ins, qNo, now)).value;
      && GetQuestion(u, qNo).Some?
      && GetQuestion(u, qNo).value.question == NewQuestion(ins, qNo, now)
      && InsertPart(GetQuestion(u, qNo).value.question) ==
         ins.(questionOrder := Some(ins.questionOrder.GetOr(DefaultQuestionOrder)),
              status := Some(ins.status.GetOr(DefaultStatus)))
      && GetQuestion(u, qNo).value.question.totalAttempts == 0
      && GetQuestion(u, qNo).value.question.correctAttempts == 0
  {
    var q := NewQuestion(ins, qNo, now);
    var u := InsertQuestionRow(t, q).value;
    InsertQuestionKeepsConsistency(t, q);
    assert q in u.questions;
    GetQuestionFindsStored(u, qNo);
    UniqueByMembers(u.questions, QNoOf, GetQuestion(u, qNo).value.question, q);
  }

  /** Recording an attempt leaves the question table, and so the parent
      question's attempt counters and difficulty, exactly as they were. */
  lemma AttemptKeepsCounters(t: Tables, a: QuestionAttempt)
    requires Consistent(t) && InsertAttemptRow(t, a).Ok?
    ensures var u := InsertAttemptRow(t, a).value;
      && GetQuestion(u, a.qNo) == GetQuestion(t, a.qNo)
      && GetQuestion(u, a.qNo).Some?
  {
    var u := InsertAttemptRow(t, a).value;
    assert u == t.(attempts := t.attempts + [a]);
    JoinedIgnoresAttempts(t, t.attempts + [a], t.questions);
    GetQuestionFindsStored(t, a.qNo);
  }

  /** The detail rows do not depend on the attempts table. */
  lemma {:induction false} JoinedIgnoresAttempts(t: Tables, attempts: seq<QuestionAttempt>, qs: seq<Question>)
    ensures Joined(t.(attempts := attempts), qs) == Joined(t, qs)
  {
    if qs != [] {
      JoinedIgnoresAttempts(t, attempts, qs[1..]);
      assert JoinRow(t.(attempts := attempts), qs[0]) == JoinRow(t, qs[0]);
    }
  }
}
