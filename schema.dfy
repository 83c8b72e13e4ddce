/** The relational schema of the question bank: five tables, their insert
    shapes, column defaults, column widths, keys, and the cascade and restrict
    rules of their foreign keys. */
module Schema {
  import opened Wrappers
  import opened Seqs

  /** A point in time in milliseconds; the store's now() is always a parameter. */
  type Timestamp = int

  /** A decimal(5,2) value held in hundredths ("0.00" is 0). */
  type Hundredths = int

  const DefaultStatus: string := "draft"
  const DefaultQuestionOrder: int := 1

  datatype QuestionType = QuestionType(
    typeId: int, typeName: string, typeNameEn: string,
    description: Option<string>, createdAt: Timestamp)

  datatype InternalType = InternalType(
    internalTypeId: int, typeId: int, internalName: string, internalNameEn: string,
    description: Option<string>, createdAt: Timestamp)

  datatype Passage = Passage(
    passageId: int, passageTitle: Option<string>, passageImage: string,
    avgDifficulty: Hundredths, createdAt: Timestamp, updatedAt: Timestamp, status: string)

  datatype Question = Question(
    qNo: int, questionTitle: Option<string>, questionText: string, questionImage: Option<string>,
    mcA: string, mcB: string, mcC: string, mcD: string, mcCorrect: string,
    typeId: int, internalTypeId: int, passageId: Option<int>, questionOrder: int,
    avgDifficulty: Hundredths, totalAttempts: int, correctAttempts: int,
    explanationImage: Option<string>, hintImage: Option<string>, tags: Option<string>,
    createdAt: Timestamp, updatedAt: Timestamp, status: string)

  datatype QuestionAttempt = QuestionAttempt(
    attemptId: int, qNo: int, studentId: Option<string>, selectedAnswer: string,
    isCorrect: bool, timeTakenSeconds: Option<int>, attemptDate: Timestamp)

  /** The five tables of the store. */
  datatype Tables = Tables(
    questionTypes: seq<QuestionType>, internalTypes: seq<InternalType>,
    passages: seq<Passage>, questions: seq<Question>, attempts: seq<QuestionAttempt>)

  /** Why the store refuses a write. */
  datatype Violation = ForeignKeyViolation | RestrictViolation | ValueTooLong

  // ----- insert shapes: the row minus the server-managed columns -----

  /** A question insert: no qNo, avgDifficulty, counters or timestamps.
      None in questionOrder or status means "use the column default". */
  datatype InsertQuestion = InsertQuestion(
    questionTitle: Option<string>, questionText: string, questionImage: Option<string>,
    mcA: string, mcB: string, mcC: string, mcD: string, mcCorrect: string,
    typeId: int, internalTypeId: int, passageId: Option<int>, questionOrder: Option<int>,
    explanationImage: Option<string>, hintImage: Option<string>, tags: Option<string>,
    status: Option<string>)

  /** A passage insert: no passageId, avgDifficulty or timestamps. */
  datatype InsertPassage = InsertPassage(
    passageTitle: Option<string>, passageImage: string, status: Option<string>)

  /** An attempt insert: no attemptId or attemptDate. */
  datatype InsertQuestionAttempt = InsertQuestionAttempt(
    qNo: int, studentId: Option<string>, selectedAnswer: string,
    isCorrect: bool, timeTakenSeconds: Option<int>)

  /** A request body for a question: any column of the row may be present or absent. */
  datatype QuestionBody = QuestionBody(
    qNo: Option<int>, questionTitle: Option<string>, questionText: Option<string>,
    questionImage: Option<string>, mcA: Option<string>, mcB: Option<string>,
    mcC: Option<string>, mcD: Option<string>, mcCorrect: Option<string>,
    typeId: Option<int>, internalTypeId: Option<int>, passageId: Option<int>,
    questionOrder: Option<int>, avgDifficulty: Option<Hundredths>,
    totalAttempts: Option<int>, correctAttempts: Option<int>,
    explanationImage: Option<string>, hintImage: Option<string>, tags: Option<string>,
    createdAt: Option<Timestamp>, updatedAt: Option<Timestamp>, status: Option<string>)

  /** A request body for a passage. */
  datatype PassageBody = PassageBody(
    passageId: Option<int>, passageTitle: Option<string>, passageImage: Option<string>,
    avgDifficulty: Option<Hundredths>, createdAt: Option<Timestamp>,
    updatedAt: Option<Timestamp>, status: Option<string>)

  /** A request body for an attempt. */
  datatype AttemptBody = AttemptBody(
    attemptId: Option<int>, qNo: Option<int>, studentId: Option<string>,
    selectedAnswer: Option<string>, isCorrect: Option<bool>,
    timeTakenSeconds: Option<int>, attemptDate: Option<Timestamp>)

  /** The required (not-null, no default) insertable columns a question body lacks, in column order. */
  function MissingQuestionFields(b: QuestionBody): seq<string> {
    (if b.questionText.None? then ["questionText"] else [])
    + (if b.mcA.None? then ["mcA"] else [])
    + (if b.mcB.None? then ["mcB"] else [])
    + (if b.mcC.None? then ["mcC"] else [])
    + (if b.mcD.None? then ["mcD"] else [])
    + (if b.mcCorrect.None? then ["mcCorrect"] else [])
    + (if b.typeId.None? then ["typeId"] else [])
    + (if b.internalTypeId.None? then ["internalTypeId"] else [])
  }

  /** The question insert schema: accepts a body exactly when every required
      column is present, lists the missing ones otherwise, and drops the
      server-managed columns. */
  function ParseInsertQuestion(b: QuestionBody): (r: Result<InsertQuestion, seq<string>>)
    ensures r.Ok? <==>
      && b.questionText.Some? && b.mcA.Some? && b.mcB.Some? && b.mcC.Some? && b.mcD.Some?
      && b.mcCorrect.Some? && b.typeId.Some? && b.internalTypeId.Some?
    ensures r.Err? ==> r.error != [] && r.error == MissingQuestionFields(b)
    ensures r.Ok? ==>
      && r.value.questionText == b.questionText.value && r.value.mcCorrect == b.mcCorrect.value
      && r.value.mcA == b.mcA.value && r.value.mcB == b.mcB.value
      && r.value.mcC == b.mcC.value && r.value.mcD == b.mcD.value
      && r.value.typeId == b.typeId.value && r.value.internalTypeId == b.internalTypeId.value
      && r.value.questionTitle == b.questionTitle && r.value.questionImage == b.questionImage
      && r.value.passageId == b.passageId && r.value.questionOrder == b.questionOrder
      && r.value.explanationImage == b.explanationImage && r.value.hintImage == b.hintImage
      && r.value.tags == b.tags && r.value.status == b.status
  {
    var missing := MissingQuestionFields(b);
    if missing != [] then Err(missing)
    else
      Ok(InsertQuestion(
        b.questionTitle, b.questionText.value, b.questionImage,
        b.mcA.value, b.mcB.value, b.mcC.value, b.mcD.value, b.mcCorrect.value,
        b.typeId.value, b.internalTypeId.value, b.passageId, b.questionOrder,
        b.explanationImage, b.hintImage, b.tags, b.status))
  }

  /** Whatever a client sends for the server-managed columns is ignored. */
  lemma ParseQuestionIgnoresServerColumns(
    b: QuestionBody, qNo: Option<int>, avg: Option<Hundredths>, total: Option<int>,
    correct: Option<int>, created: Option<Timestamp>, updated: Option<Timestamp>)
    ensures ParseInsertQuestion(b.(qNo := qNo, avgDifficulty := avg, totalAttempts := total,
      correctAttempts := correct, createdAt := created, updatedAt := updated))
      == ParseInsertQuestion(b)
  {
  }

  /** The passage insert schema: passageImage is the one required column. */
  function ParseInsertPassage(b: PassageBody): (r: Result<InsertPassage, seq<string>>)
    ensures r.Ok? <==> b.passageImage.Some?
    ensures r.Err? ==> r.error == ["passageImage"]
    ensures r.Ok? ==> r.value == InsertPassage(b.passageTitle, b.passageImage.value, b.status)
  {
    if b.passageImage.None? then Err(["passageImage"])
    else Ok(InsertPassage(b.passageTitle, b.passageImage.value, b.status))
  }

  /** The attempt insert schema: qNo, selectedAnswer and isCorrect are required. */
  function ParseInsertAttempt(b: AttemptBody): (r: Result<InsertQuestionAttempt, seq<string>>)
    ensures r.Ok? <==> b.qNo.Some? && b.selectedAnswer.Some? && b.isCorrect.Some?
    ensures r.Err? ==> r.error != [] && forall f :: f in r.error ==> f in ["qNo", "selectedAnswer", "isCorrect"]
    ensures r.Ok? ==> r.value == InsertQuestionAttempt(b.qNo.value, b.studentId,
      b.selectedAnswer.value, b.isCorrect.value, b.timeTakenSeconds)
  {
    var missing :=
      (if b.qNo.None? then ["qNo"] else [])
      + (if b.selectedAnswer.None? then ["selectedAnswer"] else [])
      + (if b.isCorrect.None? then ["isCorrect"] else []);
    if missing != [] then Err(missing)
    else
      Ok(InsertQuestionAttempt(b.qNo.value, b.studentId, b.selectedAnswer.value,
        b.isCorrect.value, b.timeTakenSeconds))
  }

  // ----- defaults: the row an insert produces -----

  /** The insertable part of a question row. */
  function InsertPart(q: Question): InsertQuestion {
    InsertQuestion(
      q.questionTitle, q.questionText, q.questionImage, q.mcA, q.mcB, q.mcC, q.mcD,
      q.mcCorrect, q.typeId, q.internalTypeId, q.passageId, Some(q.questionOrder),
      q.explanationImage, q.hintImage, q.tags, Some(q.status))
  }

  /** The row the store builds for a question insert, with serial value `qNo`
      and clock reading `now`. */
  function NewQuestion(ins: InsertQuestion, qNo: int, now: Timestamp): (q: Question)
    ensures q.qNo == qNo && q.createdAt == now && q.updatedAt == now
    ensures q.avgDifficulty == 0 && q.totalAttempts == 0 && q.correctAttempts == 0
    ensures q.questionOrder == ins.questionOrder.GetOr(DefaultQuestionOrder)
    ensures q.status == ins.status.GetOr(DefaultStatus)
    ensures InsertPart(q) == ins.(questionOrder := Some(q.questionOrder), status := Some(q.status))
  {
    Question(
      qNo, ins.questionTitle, ins.questionText, ins.questionImage,
      ins.mcA, ins.mcB, ins.mcC, ins.mcD, ins.mcCorrect,
      ins.typeId, ins.internalTypeId, ins.passageId,
      ins.questionOrder.GetOr(DefaultQuestionOrder),
      0, 0, 0,
      ins.explanationImage, ins.hintImage, ins.tags,
      now, now, ins.status.GetOr(DefaultStatus))
  }

  /** The row the store builds for a passage insert. */
  function NewPassage(ins: InsertPassage, passageId: int, now: Timestamp): (p: Passage)
    ensures p.passageId == passageId && p.createdAt == now && p.updatedAt == now
    ensures p.avgDifficulty == 0 && p.status == ins.status.GetOr(DefaultStatus)
    ensures p.passageTitle == ins.passageTitle && p.passageImage == ins.passageImage
  {
    Passage(passageId, ins.passageTitle, ins.passageImage, 0, now, now,
      ins.status.GetOr(DefaultStatus))
  }

  /** The row the store builds for an attempt insert. */
  function NewAttempt(ins: InsertQuestionAttempt, attemptId: int, now: Timestamp): (a: QuestionAttempt)
    ensures a.attemptId == attemptId && a.attemptDate == now
    ensures a.qNo == ins.qNo && a.studentId == ins.studentId && a.selectedAnswer == ins.selectedAnswer
    ensures a.isCorrect == ins.isCorrect && a.timeTakenSeconds == ins.timeTakenSeconds
  {
    QuestionAttempt(attemptId, ins.qNo, ins.studentId, ins.selectedAnswer,
      ins.isCorrect, ins.timeTakenSeconds, now)
  }

  // ----- partial updates -----

  /** A partial question update: any subset of the insertable columns. */
  datatype QuestionPatch = QuestionPatch(
    questionTitle: Patch<Option<string>>, questionText: Patch<string>,
    questionImage: Patch<Option<string>>, mcA: Patch<string>, mcB: Patch<string>,
    mcC: Patch<string>, mcD: Patch<string>, mcCorrect: Patch<string>,
    typeId: Patch<int>, internalTypeId: Patch<int>, passageId: Patch<Option<int>>,
    questionOrder: Patch<int>, explanationImage: Patch<Option<string>>,
    hintImage: Patch<Option<string>>, tags: Patch<Option<string>>, status: Patch<string>)

  /** A partial passage update. */
  datatype PassagePatch = PassagePatch(
    passageTitle: Patch<Option<string>>, passageImage: Patch<string>, status: Patch<string>)

  const NoQuestionChanges: QuestionPatch := QuestionPatch(
    Keep, Keep, Keep, Keep, Keep, Keep, Keep, Keep, Keep, Keep, Keep, Keep, Keep, Keep, Keep, Keep)

  /** The row after a partial update: the supplied columns take their new values
      and updatedAt is set to `now`. */
  function ApplyQuestionPatch(q: Question, p: QuestionPatch, now: Timestamp): (r: Question)
    ensures r.qNo == q.qNo && r.createdAt == q.createdAt && r.updatedAt == now
    ensures r.avgDifficulty == q.avgDifficulty
    ensures r.totalAttempts == q.totalAttempts && r.correctAttempts == q.correctAttempts
  {
    q.(questionTitle := p.questionTitle.Apply(q.questionTitle),
       questionText := p.questionText.Apply(q.questionText),
       questionImage := p.questionImage.Apply(q.questionImage),
       mcA := p.mcA.Apply(q.mcA), mcB := p.mcB.Apply(q.mcB),
       mcC := p.mcC.Apply(q.mcC), mcD := p.mcD.Apply(q.mcD),
       mcCorrect := p.mcCorrect.Apply(q.mcCorrect),
       typeId := p.typeId.Apply(q.typeId),
       internalTypeId := p.internalTypeId.Apply(q.internalTypeId),
       passageId := p.passageId.Apply(q.passageId),
       questionOrder := p.questionOrder.Apply(q.questionOrder),
       explanationImage := p.explanationImage.Apply(q.explanationImage),
       hintImage := p.hintImage.Apply(q.hintImage),
       tags := p.tags.Apply(q.tags),
       status := p.status.Apply(q.status),
       updatedAt := now)
  }

  /** Every column the patch does not supply keeps its value; every supplied one takes the new value. */
  lemma PatchChangesOnlySupplied(q: Question, p: QuestionPatch, now: Timestamp)
    ensures var r := ApplyQuestionPatch(q, p, now);
      && (p.questionTitle.Keep? ==> r.questionTitle == q.questionTitle)
        && (p.questionTitle.Set? ==> r.questionTitle == p.questionTitle.value)
      && (p.questionText.Keep? ==> r.questionText == q.questionText)
        && (p.questionText.Set? ==> r.questionText == p.questionText.value)
      && (p.questionImage.Keep? ==> r.questionImage == q.questionImage)
        && (p.questionImage.Set? ==> r.questionImage == p.questionImage.value)
      && (p.mcA.Keep? ==> r.mcA == q.mcA)
        && (p.mcA.Set? ==> r.mcA == p.mcA.value)
      && (p.mcB.Keep? ==> r.mcB == q.mcB)
        && (p.mcB.Set? ==> r.mcB == p.mcB.value)
      && (p.mcC.Keep? ==> r.mcC == q.mcC)
        && (p.mcC.Set? ==> r.mcC == p.mcC.value)
      && (p.mcD.Keep? ==> r.mcD == q.mcD)
        && (p.mcD.Set? ==> r.mcD == p.mcD.value)
      && (p.mcCorrect.Keep? ==> r.mcCorrect == q.mcCorrect)
        && (p.mcCorrect.Set? ==> r.mcCorrect == p.mcCorrect.value)
      && (p.typeId.Keep? ==> r.typeId == q.typeId)
        && (p.typeId.Set? ==> r.typeId == p.typeId.value)
      && (p.internalTypeId.Keep? ==> r.internalTypeId == q.internalTypeId)
        && (p.internalTypeId.Set? ==> r.internalTypeId == p.internalTypeId.value)
      && (p.passageId.Keep? ==> r.passageId == q.passageId)
        && (p.passageId.Set? ==> r.passageId == p.passageId.value)
      && (p.questionOrder.Keep? ==> r.questionOrder == q.questionOrder)
        && (p.questionOrder.Set? ==> r.questionOrder == p.questionOrder.value)
      && (p.explanationImage.Keep? ==> r.explanationImage == q.explanationImage)
        && (p.explanationImage.Set? ==> r.explanationImage == p.explanationImage.value)
      && (p.hintImage.Keep? ==> r.hintImage == q.hintImage)
        && (p.hintImage.Set? ==> r.hintImage == p.hintImage.value)
      && (p.tags.Keep? ==> r.tags == q.tags)
        && (p.tags.Set? ==> r.tags == p.tags.value)
      && (p.status.Keep? ==> r.status == q.status)
        && (p.status.Set? ==> r.status == p.status.value)
  {
  }

  /** Updating only the status changes the status and updatedAt and nothing else. */
  lemma StatusOnlyPatch(q: Question, status: string, now: Timestamp)
    ensures ApplyQuestionPatch(q, NoQuestionChanges.(status := Set(status)), now)
      == q.(status := status, updatedAt := now)
  {
  }

  /** The passage row after a partial update. */
  function ApplyPassagePatch(p: Passage, patch: PassagePatch, now: Timestamp): (r: Passage)
    ensures r.passageId == p.passageId && r.createdAt == p.createdAt && r.updatedAt == now
    ensures r.avgDifficulty == p.avgDifficulty
    ensures patch.passageTitle.Keep? ==> r.passageTitle == p.passageTitle
    ensures patch.passageImage.Keep? ==> r.passageImage == p.passageImage
    ensures patch.status.Keep? ==> r.status == p.status
    ensures patch.passageTitle.Set? ==> r.passageTitle == patch.passageTitle.value
    ensures patch.passageImage.Set? ==> r.passageImage == patch.passageImage.value
    ensures patch.status.Set? ==> r.status == patch.status.value
  {
    p.(passageTitle := patch.passageTitle.Apply(p.passageTitle),
       passageImage := patch.passageImage.Apply(p.passageImage),
       status := patch.status.Apply(p.status),
       updatedAt := now)
  }

  // ----- column widths (varchar(n) rejects longer values) -----

  predicate FitsWidth(v: Option<string>, n: nat) {
    v.None? || |v.value| <= n
  }

  predicate QuestionFits(q: Question) {
    && FitsWidth(q.questionTitle, 200) && FitsWidth(q.questionImage, 500)
    && |q.mcCorrect| <= 1 && FitsWidth(q.explanationImage, 500)
    && FitsWidth(q.hintImage, 500) && |q.status| <= 20
  }

  predicate PassageFits(p: Passage) {
    FitsWidth(p.passageTitle, 200) && |p.passageImage| <= 500 && |p.status| <= 20
  }

  predicate AttemptFits(a: QuestionAttempt) {
    FitsWidth(a.studentId, 100) && |a.selectedAnswer| <= 1
  }

  // ----- keys -----

  function TypeIdOf(t: QuestionType): int { t.typeId }
  function InternalTypeIdOf(t: InternalType): int { t.internalTypeId }
  function PassageIdOf(p: Passage): int { p.passageId }
  function QNoOf(q: Question): int { q.qNo }
  function AttemptIdOf(a: QuestionAttempt): int { a.attemptId }

  predicate HasQuestionType(t: Tables, typeId: int) {
    exists ty :: ty in t.questionTypes && ty.typeId == typeId
  }

  predicate HasInternalType(t: Tables, internalTypeId: int) {
    exists it :: it in t.internalTypes && it.internalTypeId == internalTypeId
  }

  predicate HasPassage(t: Tables, passageId: int) {
    exists p :: p in t.passages && p.passageId == passageId
  }

  predicate HasQuestion(t: Tables, qNo: int) {
    exists q :: q in t.questions && q.qNo == qNo
  }

  /** The foreign keys of a question row: its type and internal type must
      exist, and so must its passage when it has one. */
  predicate QuestionReferencesExist(t: Tables, q: Question) {
    && HasQuestionType(t, q.typeId)
    && HasInternalType(t, q.internalTypeId)
    && (q.passageId.Some? ==> HasPassage(t, q.passageId.value))
  }

  /** Type names and English type names are unique. */
  predicate UniqueTypeNames(types: seq<QuestionType>) {
    forall i, j :: 0 <= i < j < |types| ==>
      types[i].typeName != types[j].typeName && types[i].typeNameEn != types[j].typeNameEn
  }

  /** Every constraint the schema declares holds of the tables. */
  ghost predicate Consistent(t: Tables) {
    && UniqueBy(t.questionTypes, TypeIdOf) && UniqueTypeNames(t.questionTypes)
    && UniqueBy(t.internalTypes, InternalTypeIdOf)
    && UniqueBy(t.passages, PassageIdOf)
    && UniqueBy(t.questions, QNoOf)
    && UniqueBy(t.attempts, AttemptIdOf)
    && (forall it :: it in t.internalTypes ==> HasQuestionType(t, it.typeId))
    && (forall p :: p in t.passages ==> PassageFits(p))
    && (forall q :: q in t.questions ==> QuestionReferencesExist(t, q) && QuestionFits(q))
    && (forall a :: a in t.attempts ==> HasQuestion(t, a.qNo) && AttemptFits(a))
  }

  /** A question falls under one type; with unique names, one type name picks out one type id. */
  lemma TypeOfQuestionIsUnique(t: Tables, ty1: QuestionType, ty2: QuestionType)
    requires Consistent(t)
    requires ty1 in t.questionTypes && ty2 in t.questionTypes
    requires ty1.typeId == ty2.typeId || ty1.typeName == ty2.typeName
    ensures ty1 == ty2
  {
    var i :| 0 <= i < |t.questionTypes| && t.questionTypes[i] == ty1;
    var j :| 0 <= j < |t.questionTypes| && t.questionTypes[j] == ty2;
    assert TypeIdOf(ty1) == ty1.typeId && TypeIdOf(ty2) == ty2.typeId;
  }

  // ----- deletes: cascade and restrict -----

  /** The qNos of some question rows. */
  function QNosOf(qs: seq<Question>): set<int> {
    set q | q in qs :: q.qNo
  }

  /** Deleting a question deletes its attempts (cascade). */
  function DeleteQuestionCascade(t: Tables, qNo: int): (r: Tables)
    ensures r.questionTypes == t.questionTypes && r.internalTypes == t.internalTypes
    ensures r.passages == t.passages
    ensures !HasQuestion(r, qNo)
    ensures forall q :: q in r.questions <==> q in t.questions && q.qNo != qNo
    ensures forall a :: a in r.attempts <==> a in t.attempts && a.qNo != qNo
  {
    t.(questions := Filter(t.questions, (q: Question) => q.qNo != qNo),
       attempts := Filter(t.attempts, (a: QuestionAttempt) => a.qNo != qNo))
  }

  /** Deleting a passage deletes its questions, and their attempts (cascade). */
  function DeletePassageCascade(t: Tables, passageId: int): (r: Tables)
    ensures r.questionTypes == t.questionTypes && r.internalTypes == t.internalTypes
    ensures !HasPassage(r, passageId)
    ensures forall q :: q in r.questions <==> q in t.questions && q.passageId != Some(passageId)
    ensures forall a :: a in r.attempts <==>
      (a in t.attempts && !exists q :: q in t.questions && q.passageId == Some(passageId) && q.qNo == a.qNo)
  {
    var doomed := QNosOf(Filter(t.questions, (q: Question) => q.passageId == Some(passageId)));
    t.(passages := Filter(t.passages, (p: Passage) => p.passageId != passageId),
       questions := Filter(t.questions, (q: Question) => q.passageId != Some(passageId)),
       attempts := Filter(t.attempts, (a: QuestionAttempt) => a.qNo !in doomed))
  }

  /** Deleting an internal type is refused while a question references it (restrict). */
  function DeleteInternalType(t: Tables, internalTypeId: int): (r: Result<Tables, Violation>)
    ensures r.Err? <==> exists q :: q in t.questions && q.internalTypeId == internalTypeId
    ensures r.Ok? ==> !HasInternalType(r.value, internalTypeId)
  {
    if exists q :: q in t.questions && q.internalTypeId == internalTypeId then Err(RestrictViolation)
    else Ok(t.(internalTypes := Filter(t.internalTypes, (it: InternalType) => it.internalTypeId != internalTypeId)))
  }

  /** The ids of the internal types a type delete would cascade to. */
  function SubtypeIds(t: Tables, typeId: int): set<int> {
    set it | it in t.internalTypes && it.typeId == typeId :: it.internalTypeId
  }

  /** Question `q` blocks deleting type `typeId`: it references the type or one of its internal types. */
  predicate RestrictsTypeDelete(t: Tables, q: Question, typeId: int) {
    || q.typeId == typeId
    || exists it :: it in t.internalTypes && it.typeId == typeId && it.internalTypeId == q.internalTypeId
  }

  function OtherType(typeId: int): QuestionType -> bool {
    (ty: QuestionType) => ty.typeId != typeId
  }

  function OfOtherType(typeId: int): InternalType -> bool {
    (it: InternalType) => it.typeId != typeId
  }

  /** The tables without type `typeId` and its internal types. */
  function TypeRemoved(t: Tables, typeId: int): Tables {
    t.(questionTypes := Filter(t.questionTypes, OtherType(typeId)),
       internalTypes := Filter(t.internalTypes, OfOtherType(typeId)))
  }

  /** Deleting a question type cascades to its internal types; it is refused
      when a question references the type itself or one of those internal types
      (restrict). */
  function DeleteQuestionType(t: Tables, typeId: int): (r: Result<Tables, Violation>)
    ensures r.Err? <==> exists q :: q in t.questions && RestrictsTypeDelete(t, q, typeId)
    ensures r.Ok? ==> !HasQuestionType(r.value, typeId)
    ensures r.Ok? ==> forall it :: it in r.value.internalTypes <==> it in t.internalTypes && it.typeId != typeId
  {
    var cascaded := SubtypeIds(t, typeId);
    if exists q :: q in t.questions && (q.typeId == typeId || q.internalTypeId in cascaded) then
      Err(RestrictViolation)
    else
      Ok(TypeRemoved(t, typeId))
  }

  /** A question delete, with its cascade, leaves the tables consistent. */
  lemma DeleteQuestionKeepsConsistency(t: Tables, qNo: int)
    requires Consistent(t)
    ensures Consistent(DeleteQuestionCascade(t, qNo))
  {
    var r := DeleteQuestionCascade(t, qNo);
    FilterUniqueBy(t.questions, (q: Question) => q.qNo != qNo, QNoOf);
    FilterUniqueBy(t.attempts, (a: QuestionAttempt) => a.qNo != qNo, AttemptIdOf);
    forall q | q in r.questions ensures QuestionReferencesExist(r, q) {
      assert QuestionReferencesExist(t, q);
      if q.passageId.Some? {
        var p :| p in t.passages && p.passageId == q.passageId.value;
        assert p in r.passages;
      }
    }
    forall a | a in r.attempts ensures HasQuestion(r, a.qNo) {
      var q :| q in t.questions && q.qNo == a.qNo;
      assert q in r.questions;
    }
  }

  /** A passage delete, with its cascade to questions and their attempts, leaves the tables consistent. */
  lemma DeletePassageKeepsConsistency(t: Tables, passageId: int)
    requires Consistent(t)
    ensures Consistent(DeletePassageCascade(t, passageId))
  {
    var r := DeletePassageCascade(t, passageId);
    var doomed := QNosOf(Filter(t.questions, (q: Question) => q.passageId == Some(passageId)));
    FilterUniqueBy(t.passages, (p: Passage) => p.passageId != passageId, PassageIdOf);
    FilterUniqueBy(t.questions, (q: Question) => q.passageId != Some(passageId), QNoOf);
    FilterUniqueBy(t.attempts, (a: QuestionAttempt) => a.qNo !in doomed, AttemptIdOf);
    forall q | q in r.questions ensures QuestionReferencesExist(r, q) {
      assert QuestionReferencesExist(t, q);
      if q.passageId.Some? {
        var p :| p in t.passages && p.passageId == q.passageId.value;
        assert p in r.passages;
      }
    }
    forall a | a in r.attempts ensures HasQuestion(r, a.qNo) {
      var q :| q in t.questions && q.qNo == a.qNo;
      assert q in r.questions;
    }
  }

  /** An internal-type delete the restrict rule lets through leaves the tables consistent. */
  lemma DeleteInternalTypeKeepsConsistency(t: Tables, internalTypeId: int)
    requires Consistent(t) && DeleteInternalType(t, internalTypeId).Ok?
    ensures Consistent(DeleteInternalType(t, internalTypeId).value)
  {
    var r := DeleteInternalType(t, internalTypeId).value;
    FilterUniqueBy(t.internalTypes, (it: InternalType) => it.internalTypeId != internalTypeId, InternalTypeIdOf);
    forall q | q in r.questions ensures QuestionReferencesExist(r, q) {
      assert QuestionReferencesExist(t, q);
      var it :| it in t.internalTypes && it.internalTypeId == q.internalTypeId;
      assert it in r.internalTypes;
    }
  }

  /** After removing a type no question restricts, with its internal types,
      every remaining internal type and question still names existing rows. */
  lemma TypeRemovedReferences(t: Tables, typeId: int)
    requires forall it :: it in t.internalTypes ==> HasQuestionType(t, it.typeId)
    requires forall q :: q in t.questions ==> QuestionReferencesExist(t, q)
    requires forall q :: q in t.questions ==> !RestrictsTypeDelete(t, q, typeId)
    ensures var r := TypeRemoved(t, typeId);
      && (forall it :: it in r.internalTypes ==> HasQuestionType(r, it.typeId))
      && (forall q :: q in r.questions ==> QuestionReferencesExist(r, q))
  {
    var r := TypeRemoved(t, typeId);
    forall it | it in r.internalTypes ensures HasQuestionType(r, it.typeId) {
      var ty :| ty in t.questionTypes && ty.typeId == it.typeId;
      assert ty in r.questionTypes;
    }
    forall q | q in r.questions ensures QuestionReferencesExist(r, q) {
      assert QuestionReferencesExist(t, q) && !RestrictsTypeDelete(t, q, typeId);
      var ty :| ty in t.questionTypes && ty.typeId == q.typeId;
      assert ty in r.questionTypes;
      var it :| it in t.internalTypes && it.internalTypeId == q.internalTypeId;
      assert it in r.internalTypes;
    }
  }

  /** Removing a type no question restricts, with its internal types, keeps
      the tables consistent. */
  lemma TypeRemovedConsistent(t: Tables, typeId: int)
    requires Consistent(t)
    requires forall q :: q in t.questions ==> !RestrictsTypeDelete(t, q, typeId)
    ensures Consistent(TypeRemoved(t, typeId))
  {
    FilterUniqueBy(t.questionTypes, OtherType(typeId), TypeIdOf);
    FilterUniqueBy(t.internalTypes, OfOtherType(typeId), InternalTypeIdOf);
    FilterNamesUnique(t.questionTypes, OtherType(typeId));
    TypeRemovedReferences(t, typeId);
    var r := TypeRemoved(t, typeId);
    assert r.questions == t.questions && r.attempts == t.attempts && r.passages == t.passages;
    forall a | a in r.attempts ensures HasQuestion(r, a.qNo) {
      assert HasQuestion(t, a.qNo);
    }
  }

  /** A question-type delete the restrict rule lets through, with its cascade
      to internal types, leaves the tables consistent. */
  lemma DeleteQuestionTypeKeepsConsistency(t: Tables, typeId: int)
    requires Consistent(t) && DeleteQuestionType(t, typeId).Ok?
    ensures Consistent(DeleteQuestionType(t, typeId).value)
  {
    TypeRemovedConsistent(t, typeId);
  }

  lemma {:induction false} FilterNamesUnique(types: seq<QuestionType>, p: QuestionType -> bool)
    requires UniqueTypeNames(types)
    ensures UniqueTypeNames(Filter(types, p))
  {
    if types != [] {
      assert UniqueTypeNames(types[1..]);
      FilterNamesUnique(types[1..], p);
      var rest := Filter(types[1..], p);
      if p(types[0]) {
        forall y | y in rest ensures y.typeName != types[0].typeName && y.typeNameEn != types[0].typeNameEn {
          var j :| 0 <= j < |types[1..]| && types[1..][j] == y;
          assert types[j + 1] == y;
        }
        var r := [types[0]] + rest;
        forall i, j | 0 <= i < j < |r| ensures r[i].typeName != r[j].typeName && r[i].typeNameEn != r[j].typeNameEn {
          assert r[j] == rest[j - 1] && rest[j - 1] in rest;
          if i > 0 { assert r[i] == rest[i - 1]; }
        }
      }
    }
  }

  /** Deleting a passage that does not exist changes nothing. */
  lemma DeleteAbsentPassage(t: Tables, passageId: int)
    requires Consistent(t) && !HasPassage(t, passageId)
    ensures DeletePassageCascade(t, passageId) == t
  {
    var doomedRows := Filter(t.questions, (q: Question) => q.passageId == Some(passageId));
    forall q | q in t.questions ensures q.passageId != Some(passageId) {
      assert QuestionReferencesExist(t, q);
    }
    FilterNone(t.questions, (q: Question) => q.passageId == Some(passageId));
    FilterAll(t.passages, (p: Passage) => p.passageId != passageId);
    FilterAll(t.questions, (q: Question) => q.passageId != Some(passageId));
    FilterAll(t.attempts, (a: QuestionAttempt) => a.qNo !in QNosOf(doomedRows));
  }

  /** Deleting a question that does not exist changes nothing. */
  lemma DeleteAbsentQuestion(t: Tables, qNo: int)
    requires Consistent(t) && !HasQuestion(t, qNo)
    ensures DeleteQuestionCascade(t, qNo) == t
  {
    FilterAll(t.questions, (q: Question) => q.qNo != qNo);
    forall a | a in t.attempts ensures a.qNo != qNo {
      assert HasQuestion(t, a.qNo);
    }
    FilterAll(t.attempts, (a: QuestionAttempt) => a.qNo != qNo);
  }

  // ----- inserts and updates as the store enforces them -----

  /** Adding a question row: refused when a value is too wide for its column,
      then when a foreign key does not resolve. */
  function InsertQuestionRow(t: Tables, q: Question): (r: Result<Tables, Violation>)
    ensures r.Err? <==> !QuestionFits(q) || !QuestionReferencesExist(t, q)
    ensures r.Err? ==> r.error == if !QuestionFits(q) then ValueTooLong else ForeignKeyViolation
    ensures r.Ok? ==> r.value == t.(questions := t.questions + [q])
  {
    if !QuestionFits(q) then Err(ValueTooLong)
    else if !QuestionReferencesExist(t, q) then Err(ForeignKeyViolation)
    else Ok(t.(questions := t.questions + [q]))
  }

  /** Adding a passage row: refused only when a value is too wide. */
  function InsertPassageRow(t: Tables, p: Passage): (r: Result<Tables, Violation>)
    ensures r.Err? <==> !PassageFits(p)
    ensures r.Ok? ==> r.value == t.(passages := t.passages + [p])
  {
    if !PassageFits(p) then Err(ValueTooLong)
    else Ok(t.(passages := t.passages + [p]))
  }

  /** Adding an attempt row: refused when a value is too wide, then when its
      question does not exist. The question row itself is not touched. */
  function InsertAttemptRow(t: Tables, a: QuestionAttempt): (r: Result<Tables, Violation>)
    ensures r.Err? <==> !AttemptFits(a) || !HasQuestion(t, a.qNo)
    ensures r.Err? ==> r.error == if !AttemptFits(a) then ValueTooLong else ForeignKeyViolation
    ensures r.Ok? ==> r.value.questions == t.questions && r.value.attempts == t.attempts + [a]
  {
    if !AttemptFits(a) then Err(ValueTooLong)
    else if !HasQuestion(t, a.qNo) then Err(ForeignKeyViolation)
    else Ok(t.(attempts := t.attempts + [a]))
  }

  /** Every question row with key `qNo` patched; the others as they are. */
  function PatchQuestionRows(qs: seq<Question>, qNo: int, p: QuestionPatch, now: Timestamp): seq<Question> {
    seq(|qs|, i requires 0 <= i < |qs| =>
      if qs[i].qNo == qNo then ApplyQuestionPatch(qs[i], p, now) else qs[i])
  }

  /** An UPDATE ... WHERE qNo = `qNo`: all or nothing, refused when an updated
      row is too wide or names a missing type, internal type or passage. */
  function UpdateQuestionRows(t: Tables, qNo: int, p: QuestionPatch, now: Timestamp): (r: Result<Tables, Violation>)
    ensures r.Ok? ==> r.value == t.(questions := PatchQuestionRows(t.questions, qNo, p, now))
    ensures !HasQuestion(t, qNo) ==> r == Ok(t)
  {
    var rows := PatchQuestionRows(t.questions, qNo, p, now);
    var u := t.(questions := rows);
    if exists q :: q in rows && q.qNo == qNo && !QuestionFits(q) then Err(ValueTooLong)
    else if exists q :: q in rows && q.qNo == qNo && !QuestionReferencesExist(u, q) then Err(ForeignKeyViolation)
    else
      (if !HasQuestion(t, qNo) then
         assert rows == t.questions;
         Ok(u)
       else Ok(u))
  }

  function PatchPassageRows(ps: seq<Passage>, passageId: int, p: PassagePatch, now: Timestamp): seq<Passage> {
    seq(|ps|, i requires 0 <= i < |ps| =>
      if ps[i].passageId == passageId then ApplyPassagePatch(ps[i], p, now) else ps[i])
  }

  /** An UPDATE of the passage with key `passageId`: refused when the updated row is too wide. */
  function UpdatePassageRows(t: Tables, passageId: int, p: PassagePatch, now: Timestamp): (r: Result<Tables, Violation>)
    ensures r.Ok? ==> r.value == t.(passages := PatchPassageRows(t.passages, passageId, p, now))
    ensures !HasPassage(t, passageId) ==> r == Ok(t)
  {
    var rows := PatchPassageRows(t.passages, passageId, p, now);
    if exists x :: x in rows && x.passageId == passageId && !PassageFits(x) then Err(ValueTooLong)
    else
      (if !HasPassage(t, passageId) then
         assert rows == t.passages;
         Ok(t.(passages := rows))
       else Ok(t.(passages := rows)))
  }

  /** A question insert with a fresh key keeps the tables consistent. */
  lemma InsertQuestionKeepsConsistency(t: Tables, q: Question)
    requires Consistent(t) && InsertQuestionRow(t, q).Ok?
    requires forall x :: x in t.questions ==> x.qNo != q.qNo
    ensures Consistent(InsertQuestionRow(t, q).value)
  {
    var u := InsertQuestionRow(t, q).value;
    UniqueByAppend(t.questions, q, QNoOf);
    forall a | a in u.attempts ensures HasQuestion(u, a.qNo) {
      var x :| x in t.questions && x.qNo == a.qNo;
      assert x in u.questions;
    }
  }

  /** A passage insert with a fresh key keeps the tables consistent. */
  lemma InsertPassageKeepsConsistency(t: Tables, p: Passage)
    requires Consistent(t) && InsertPassageRow(t, p).Ok?
    requires forall x :: x in t.passages ==> x.passageId != p.passageId
    ensures Consistent(InsertPassageRow(t, p).value)
  {
    var u := InsertPassageRow(t, p).value;
    UniqueByAppend(t.passages, p, PassageIdOf);
    forall q | q in u.questions ensures QuestionReferencesExist(u, q) {
      assert QuestionReferencesExist(t, q);
      if q.passageId.Some? {
        var x :| x in t.passages && x.passageId == q.passageId.value;
        assert x in u.passages;
      }
    }
  }

  /** An attempt insert with a fresh key keeps the tables consistent. */
  lemma InsertAttemptKeepsConsistency(t: Tables, a: QuestionAttempt)
    requires Consistent(t) && InsertAttemptRow(t, a).Ok?
    requires forall x :: x in t.attempts ==> x.attemptId != a.attemptId
    ensures Consistent(InsertAttemptRow(t, a).value)
  {
    UniqueByAppend(t.attempts, a, AttemptIdOf);
  }

  /** Patching keeps every row's key and leaves the rows with other keys as they are. */
  lemma PatchQuestionRowsKeys(qs: seq<Question>, qNo: int, p: QuestionPatch, now: Timestamp)
    ensures var rows := PatchQuestionRows(qs, qNo, p, now);
      && |rows| == |qs|
      && (forall i :: 0 <= i < |qs| ==> rows[i].qNo == qs[i].qNo)
      && (forall i :: 0 <= i < |qs| && qs[i].qNo != qNo ==> rows[i] == qs[i])
  {
  }

  /** Every row of an accepted question update fits its columns and names existing rows. */
  lemma UpdatedQuestionRowsValid(t: Tables, qNo: int, p: QuestionPatch, now: Timestamp)
    requires Consistent(t) && UpdateQuestionRows(t, qNo, p, now).Ok?
    ensures var u := UpdateQuestionRows(t, qNo, p, now).value;
      forall q :: q in u.questions ==> QuestionReferencesExist(u, q) && QuestionFits(q)
  {
    var rows := PatchQuestionRows(t.questions, qNo, p, now);
    var u := t.(questions := rows);
    assert UpdateQuestionRows(t, qNo, p, now).value == u;
    assert forall q :: q in rows && q.qNo == qNo ==> QuestionFits(q) && QuestionReferencesExist(u, q);
    forall q | q in rows ensures QuestionReferencesExist(u, q) && QuestionFits(q) {
      if q.qNo != qNo {
        var i :| 0 <= i < |rows| && rows[i] == q;
        assert t.questions[i] == q && q in t.questions;
      }
    }
  }

  /** Rows that keep their keys position by position keep every attempt's question. */
  lemma SameKeysKeepAttemptParents(t: Tables, rows: seq<Question>)
    requires forall a :: a in t.attempts ==> HasQuestion(t, a.qNo)
    requires |rows| == |t.questions| && forall i :: 0 <= i < |rows| ==> rows[i].qNo == t.questions[i].qNo
    ensures forall a :: a in t.attempts ==> HasQuestion(t.(questions := rows), a.qNo)
  {
    forall a | a in t.attempts ensures HasQuestion(t.(questions := rows), a.qNo) {
      var x :| x in t.questions && x.qNo == a.qNo;
      var i :| 0 <= i < |t.questions| && t.questions[i] == x;
      assert rows[i] in rows;
    }
  }

  /** An accepted question update keeps the tables consistent. */
  lemma UpdateQuestionKeepsConsistency(t: Tables, qNo: int, p: QuestionPatch, now: Timestamp)
    requires Consistent(t) && UpdateQuestionRows(t, qNo, p, now).Ok?
    ensures Consistent(UpdateQuestionRows(t, qNo, p, now).value)
  {
    var rows := PatchQuestionRows(t.questions, qNo, p, now);
    PatchQuestionRowsKeys(t.questions, qNo, p, now);
    assert UniqueBy(rows, QNoOf);
    UpdatedQuestionRowsValid(t, qNo, p, now);
    SameKeysKeepAttemptParents(t, rows);
  }

  /** An accepted passage update keeps the tables consistent. */
  lemma UpdatePassageKeepsConsistency(t: Tables, passageId: int, p: PassagePatch, now: Timestamp)
    requires Consistent(t) && UpdatePassageRows(t, passageId, p, now).Ok?
    ensures Consistent(UpdatePassageRows(t, passageId, p, now).value)
  {
    var u := UpdatePassageRows(t, passageId, p, now).value;
    var rows := u.passages;
    assert forall i :: 0 <= i < |rows| ==> rows[i].passageId == t.passages[i].passageId;
    assert UniqueBy(rows, PassageIdOf);
    forall x | x in rows ensures PassageFits(x) {
      var i :| 0 <= i < |rows| && rows[i] == x;
      assert PassageFits(t.passages[i]);
    }
    forall q | q in u.questions ensures QuestionReferencesExist(u, q) {
      assert QuestionReferencesExist(t, q);
      if q.passageId.Some? {
        var x :| x in t.passages && x.passageId == q.passageId.value;
        var i :| 0 <= i < |t.passages| && t.passages[i] == x;
        assert rows[i] in rows;
      }
    }
  }
}
