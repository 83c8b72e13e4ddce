/** The question form of the API-backed client: its validation rules, the
    values it is reset to for create and edit, the type-change reset of the
    internal type, and the record it submits (tags split on commas). */
module QuestionModal {
  import opened Wrappers
  import opened Seqs
  import opened Strings
  import opened Schema

  /** The form's fields as the form library holds them. */
  datatype FormValues = FormValues(
    questionTitle: string, questionText: string, questionImage: string,
    mcA: string, mcB: string, mcC: string, mcD: string, mcCorrect: string,
    typeId: int, internalTypeId: int, passageId: int, questionOrder: int,
    explanationImage: string, hintImage: string, tags: string, status: string)

  /** The values of a create-mode form, and the form's initial values. */
  const CreateDefaults: FormValues := FormValues(
    "", "", "", "", "", "", "", "A", 0, 0, 0, 1, "", "", "", "draft")

  const CorrectLetters: set<string> := {"A", "B", "C", "D"}
  const FormStatuses: set<string> := {"draft", "active", "inactive"}

  // ----- validation -----

  /** The form fields that carry a validation rule. */
  datatype Field = QuestionText | McA | McB | McC | McD | McCorrect
                 | TypeId | InternalTypeId | QuestionOrder | Status

  /** `[name]` when the check `failed`, nothing otherwise. */
  function Flag(failed: bool, name: Field): (r: seq<Field>)
    ensures forall n :: n in r <==> failed && n == name
  {
    if failed then [name] else []
  }

  /** Field `name` breaks its rule in the form schema. */
  predicate Fails(f: FormValues, name: Field) {
    || (name == QuestionText && f.questionText == "")
    || (name == McA && f.mcA == "")
    || (name == McB && f.mcB == "")
    || (name == McC && f.mcC == "")
    || (name == McD && f.mcD == "")
    || (name == McCorrect && f.mcCorrect !in CorrectLetters)
    || (name == TypeId && f.typeId < 1)
    || (name == InternalTypeId && f.internalTypeId < 1)
    || (name == QuestionOrder && f.questionOrder < 1)
    || (name == Status && f.status !in FormStatuses)
  }

  /** The fields that fail the form schema, in field order. */
  function FieldErrors(f: FormValues): (r: seq<Field>)
    ensures forall name :: name in r <==> Fails(f, name)
  {
    Flag(f.questionText == "", QuestionText)
    + Flag(f.mcA == "", McA) + Flag(f.mcB == "", McB)
    + Flag(f.mcC == "", McC) + Flag(f.mcD == "", McD)
    + Flag(f.mcCorrect !in CorrectLetters, McCorrect)
    + Flag(f.typeId < 1, TypeId)
    + Flag(f.internalTypeId < 1, InternalTypeId)
    + Flag(f.questionOrder < 1, QuestionOrder)
    + Flag(f.status !in FormStatuses, Status)
  }

  predicate CanSubmit(f: FormValues) {
    FieldErrors(f) == []
  }

  /** The form submits exactly when every field keeps its rule. */
  lemma CanSubmitRules(f: FormValues)
    ensures CanSubmit(f) <==>
      && f.questionText != "" && f.mcA != "" && f.mcB != "" && f.mcC != "" && f.mcD != ""
      && f.mcCorrect in CorrectLetters
      && f.typeId >= 1 && f.internalTypeId >= 1 && f.questionOrder >= 1
      && f.status in FormStatuses
  {
    var r := FieldErrors(f);
    if r != [] {
      assert r[0] in r;
    }
    assert Fails(f, QuestionText) ==> QuestionText in r;
    assert Fails(f, McA) ==> McA in r;
    assert Fails(f, McB) ==> McB in r;
    assert Fails(f, McC) ==> McC in r;
    assert Fails(f, McD) ==> McD in r;
    assert Fails(f, McCorrect) ==> McCorrect in r;
    assert Fails(f, TypeId) ==> TypeId in r;
    assert Fails(f, InternalTypeId) ==> InternalTypeId in r;
    assert Fails(f, QuestionOrder) ==> QuestionOrder in r;
    assert Fails(f, Status) ==> Status in r;
  }

  /** A fresh create-mode form cannot be submitted: no text, options, type or internal type yet. */
  lemma CreateDefaultsRejected()
    ensures var e := FieldErrors(CreateDefaults);
      QuestionText in e && TypeId in e && InternalTypeId in e && Status !in e
  {
    assert Fails(CreateDefaults, QuestionText);
    assert !Fails(CreateDefaults, Status);
  }

  /** Choosing a question type clears the internal type, so the form is rejected until a subtype is chosen. */
  lemma TypeChangeBlocksSubmit(f: FormValues, typeId: int)
    ensures InternalTypeId in FieldErrors(f.(typeId := typeId, internalTypeId := 0))
  {
    assert Fails(f.(typeId := typeId, internalTypeId := 0), InternalTypeId);
  }

  // ----- tags -----

  function TrimAll(parts: seq<string>): (r: seq<string>)
    ensures |r| == |parts| && forall i :: 0 <= i < |parts| ==> r[i] == Trim(parts[i])
  {
    seq(|parts|, i requires 0 <= i < |parts| => Trim(parts[i]))
  }

  function NonEmpty(): string -> bool {
    (s: string) => s != ""
  }

  /** Trimming only removes characters. */
  lemma TrimKeepsAbsent(s: string, c: char)
    requires c !in s
    ensures c !in Trim(s)
  {
    var a := TrimStart(s);
    assert a == s[|s| - |a|..];
    var b := TrimEnd(a);
    assert b == a[..|b|];
  }

  /** The submitted tags: the comma-separated pieces, trimmed, empty ones dropped. */
  function ParseTags(s: string): (r: seq<string>)
    ensures s == "" ==> r == []
    ensures forall tag :: tag in r ==> tag != "" && Unpadded(tag) && ',' !in tag
  {
    if s == "" then []
    else
      var pieces := Split(s, ',');
      var trimmed := TrimAll(pieces);
      forall tag | tag in trimmed ensures ',' !in tag {
        var i :| 0 <= i < |trimmed| && trimmed[i] == tag;
        assert pieces[i] in pieces;
        TrimKeepsAbsent(pieces[i], ',');
      }
      Filter(trimmed, NonEmpty())
  }

  /** Splitting a ", "-joined list on commas gives the first tag with its
      prefix, then every later tag behind one space. */
  lemma {:induction false} SplitJoined(prefix: string, tags: seq<string>)
    requires tags != [] && ',' !in prefix
    requires forall tag :: tag in tags ==> ',' !in tag
    decreases |tags|
    ensures var pieces := Split(prefix + Join(tags, ", "), ',');
      && |pieces| == |tags|
      && pieces[0] == prefix + tags[0]
      && forall i :: 1 <= i < |tags| ==> pieces[i] == " " + tags[i]
  {
    assert tags[0] in tags;
    if |tags| == 1 {
      SplitWithoutSep(prefix + tags[0], ',');
    } else {
      var rest := tags[1..];
      forall tag | tag in rest ensures ',' !in tag { assert tag in tags; }
      SplitJoined(" ", rest);
      assert prefix + Join(tags, ", ") == (prefix + tags[0]) + [','] + (" " + Join(rest, ", "));
      SplitAtFirst(prefix + tags[0], " " + Join(rest, ", "), ',');
    }
  }

  /** Trimming the pieces of a ", "-joined clean list gives the list back. */
  lemma TrimPieces(tags: seq<string>)
    requires tags != []
    requires forall tag :: tag in tags ==> Unpadded(tag) && ',' !in tag
    ensures TrimAll(Split(Join(tags, ", "), ',')) == tags
  {
    SplitJoined("", tags);
    assert "" + Join(tags, ", ") == Join(tags, ", ");
    var pieces := Split(Join(tags, ", "), ',');
    var trimmed := TrimAll(pieces);
    forall i | 0 <= i < |tags| ensures trimmed[i] == tags[i] {
      assert tags[i] in tags;
      TrimUnpadded(tags[i]);
      if i > 0 {
        TrimLeadingSpace(tags[i]);
      }
    }
  }

  /** A list of trimmed, non-empty, comma-free tags survives joining with ", " and parsing. */
  lemma TagsRoundTrip(tags: seq<string>)
    requires forall tag :: tag in tags ==> tag != "" && Unpadded(tag) && ',' !in tag
    ensures ParseTags(Join(tags, ", ")) == tags
  {
    if tags != [] {
      var joined := Join(tags, ", ");
      assert joined != "" by {
        assert tags[0] in tags;
        if |tags| > 1 {
          assert joined == tags[0] + ", " + Join(tags[1..], ", ");
        }
      }
      TrimPieces(tags);
      FilterAll(tags, NonEmpty());
    }
  }

  // ----- reset values -----

  /** How a stored question's tags reach the form: as a list or as text. */
  datatype StoredTags = TagArray(items: seq<string>) | TagText(text: Option<string>)

  /** A list is shown joined with ", "; text as it is; nothing as "". */
  function TagsForForm(t: StoredTags): string {
    match t
    case TagArray(items) => Join(items, ", ")
    case TagText(text) => if text.Some? then text.value else ""
  }

  /** The edit-mode values for `q`: nullable texts become "", a missing
      passage 0, a missing order 1. */
  function EditValues(q: Question, tags: StoredTags): (f: FormValues)
    ensures f.questionText == q.questionText && f.mcCorrect == q.mcCorrect && f.status == q.status
    ensures f.mcA == q.mcA && f.mcB == q.mcB && f.mcC == q.mcC && f.mcD == q.mcD
    ensures f.typeId == q.typeId && f.internalTypeId == q.internalTypeId
    ensures q.questionTitle.None? ==> f.questionTitle == ""
    ensures q.questionTitle.Some? ==> f.questionTitle == q.questionTitle.value
    ensures q.questionImage.None? ==> f.questionImage == ""
    ensures q.questionImage.Some? ==> f.questionImage == q.questionImage.value
    ensures q.explanationImage.None? ==> f.explanationImage == ""
    ensures q.explanationImage.Some? ==> f.explanationImage == q.explanationImage.value
    ensures q.hintImage.None? ==> f.hintImage == ""
    ensures q.hintImage.Some? ==> f.hintImage == q.hintImage.value
    ensures q.passageId.None? ==> f.passageId == 0
    ensures q.passageId.Some? ==> f.passageId == q.passageId.value
    ensures f.questionOrder != 0
    ensures q.questionOrder != 0 ==> f.questionOrder == q.questionOrder
    ensures q.questionOrder == 0 ==> f.questionOrder == 1
    ensures tags.TagArray? ==> f.tags == Join(tags.items, ", ")
    ensures tags.TagText? && tags.text.Some? ==> f.tags == tags.text.value
    ensures tags == TagText(None) ==> f.tags == ""
  {
    FormValues(
      q.questionTitle.GetOr(""), q.questionText, q.questionImage.GetOr(""),
      q.mcA, q.mcB, q.mcC, q.mcD, q.mcCorrect,
      q.typeId, q.internalTypeId, q.passageId.GetOr(0),
      if q.questionOrder != 0 then q.questionOrder else 1,
      q.explanationImage.GetOr(""), q.hintImage.GetOr(""), TagsForForm(tags), q.status)
  }

  // ----- the submitted record -----

  /** What onSubmit sends: the insert record with tags as a list. */
  datatype SubmitData = SubmitData(
    questionTitle: Option<string>, questionText: string, questionImage: Option<string>,
    mcA: string, mcB: string, mcC: string, mcD: string, mcCorrect: string,
    typeId: int, internalTypeId: int, passageId: Option<int>, questionOrder: int,
    explanationImage: Option<string>, hintImage: Option<string>, tags: seq<string>,
    status: string)

  /** JavaScript's `s || null` on a string. */
  function OrNull(s: string): (r: Option<string>)
    ensures r.None? <==> s == ""
    ensures r.Some? ==> r.value == s
  {
    if s == "" then None else Some(s)
  }

  /** onSubmit: empty title and image fields become null, passage 0 becomes
      null, order 0 becomes 1, the tags text is parsed, the rest is copied. */
  function ToSubmitData(f: FormValues): (d: SubmitData)
    ensures d.questionText == f.questionText && d.mcA == f.mcA && d.mcB == f.mcB
    ensures d.mcC == f.mcC && d.mcD == f.mcD && d.mcCorrect == f.mcCorrect
    ensures d.typeId == f.typeId && d.internalTypeId == f.internalTypeId && d.status == f.status
    ensures d.questionTitle.None? <==> f.questionTitle == ""
    ensures d.questionImage.None? <==> f.questionImage == ""
    ensures d.explanationImage.None? <==> f.explanationImage == ""
    ensures d.hintImage.None? <==> f.hintImage == ""
    ensures d.questionTitle.Some? ==> d.questionTitle.value == f.questionTitle
    ensures d.questionImage.Some? ==> d.questionImage.value == f.questionImage
    ensures d.explanationImage.Some? ==> d.explanationImage.value == f.explanationImage
    ensures d.hintImage.Some? ==> d.hintImage.value == f.hintImage
    ensures d.passageId.None? <==> f.passageId == 0
    ensures d.passageId.Some? ==> d.passageId.value == f.passageId
    ensures f.questionOrder != 0 ==> d.questionOrder == f.questionOrder
    ensures f.questionOrder == 0 ==> d.questionOrder == 1
    ensures d.tags == ParseTags(f.tags)
    ensures forall tag :: tag in d.tags ==> tag != "" && Unpadded(tag)
  {
    SubmitData(
      OrNull(f.questionTitle), f.questionText, OrNull(f.questionImage),
      f.mcA, f.mcB, f.mcC, f.mcD, f.mcCorrect,
      f.typeId, f.internalTypeId,
      if f.passageId == 0 then None else Some(f.passageId),
      if f.questionOrder != 0 then f.questionOrder else 1,
      OrNull(f.explanationImage), OrNull(f.hintImage), ParseTags(f.tags), f.status)
  }

  /** A field the store holds as NULL or as a non-empty value (never ""). */
  predicate NoEmptyText(v: Option<string>) {
    v.None? || v.value != ""
  }

  /** Opening a stored question for editing and submitting it unchanged sends
      back the question's own values, and its tag list when the list is clean. */
  lemma EditThenSubmit(q: Question, tags: seq<string>)
    requires NoEmptyText(q.questionTitle) && NoEmptyText(q.questionImage)
    requires NoEmptyText(q.explanationImage) && NoEmptyText(q.hintImage)
    requires q.passageId != Some(0) && q.questionOrder != 0
    requires forall tag :: tag in tags ==> tag != "" && Unpadded(tag) && ',' !in tag
    ensures var d := ToSubmitData(EditValues(q, TagArray(tags)));
      && d.questionTitle == q.questionTitle && d.questionImage == q.questionImage
      && d.explanationImage == q.explanationImage && d.hintImage == q.hintImage
      && d.passageId == q.passageId && d.questionOrder == q.questionOrder
      && d.questionText == q.questionText && d.mcCorrect == q.mcCorrect
      && d.mcA == q.mcA && d.mcB == q.mcB && d.mcC == q.mcC && d.mcD == q.mcD
      && d.typeId == q.typeId && d.internalTypeId == q.internalTypeId && d.status == q.status
      && d.tags == tags
  {
    TagsRoundTrip(tags);
  }

  /** The form state and the two ways it is reset or changed in place. */
  class QuestionForm {
    var values: FormValues

    constructor ()
      ensures values == CreateDefaults
    {
      values := CreateDefaults;
    }

    /** The reset in edit mode: the question's values. */
    method ResetForEdit(q: Question, tags: StoredTags)
      modifies this
      ensures values == EditValues(q, tags)
    {
      values := EditValues(q, tags);
    }

    /** The reset in create mode: the defaults, which cannot be submitted. */
    method ResetForCreate()
      modifies this
      ensures values == CreateDefaults
      ensures !CanSubmit(values)
    {
      values := CreateDefaults;
      CreateDefaultsRejected();
    }

    /** Choosing a question type stores it and clears the internal type;
        every other field keeps its value. */
    method SelectType(typeId: int)
      modifies this
      ensures values == old(values).(typeId := typeId, internalTypeId := 0)
      ensures !CanSubmit(values)
    {
      values := values.(typeId := typeId, internalTypeId := 0);
      TypeChangeBlocksSubmit(old(values), typeId);
    }

    /** onSubmit on the current values, when they validate. */
    method Submit() returns (r: Result<SubmitData, seq<Field>>)
      ensures r.Ok? <==> CanSubmit(values)
      ensures r.Ok? ==> r.value == ToSubmitData(values)
      ensures r.Err? ==> r.error == FieldErrors(values)
    {
      var errors := FieldErrors(values);
      if errors == [] {
        r := Ok(ToSubmitData(values));
      } else {
        r := Err(errors);
      }
    }
  }
}
