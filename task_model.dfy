/**
 * The task record, its field constraints and its constructor.
 *
 * The schema library's object schemas become explicit checks: `ValidateInput`
 * for the form fields, `ValidateTask` for a stored record and `ValidateList`
 * for the stored array. Each returns the trimmed record or the set of fields
 * (or list positions) that failed.
 */
module TaskModel {
  import opened Wrappers
  import opened Text
  import opened Seqs

  datatype Status = Todo | Doing | Done
  datatype Priority = Low | Medium | High

  /** The status values in the order the board lists its columns. */
  const Statuses: seq<Status> := [Todo, Doing, Done]

  function StatusName(s: Status): string {
    match s
    case Todo => "todo"
    case Doing => "doing"
    case Done => "done"
  }

  function PriorityName(p: Priority): string {
    match p
    case Low => "low"
    case Medium => "medium"
    case High => "high"
  }

  /** The enumeration check on a status string. */
  function ParseStatus(name: string): (r: Option<Status>)
    ensures r.Some? ==> StatusName(r.value) == name
  {
    if name == "todo" then Some(Todo)
    else if name == "doing" then Some(Doing)
    else if name == "done" then Some(Done)
    else None
  }

  /** The enumeration check on a priority string. */
  function ParsePriority(name: string): (r: Option<Priority>)
    ensures r.Some? ==> PriorityName(r.value) == name
  {
    if name == "low" then Some(Low)
    else if name == "medium" then Some(Medium)
    else if name == "high" then Some(High)
    else None
  }

  /** Every status name is accepted back as that status, so the enumeration check accepts exactly the three names. */
  lemma StatusNamesParse(s: Status)
    ensures ParseStatus(StatusName(s)) == Some(s)
  {
  }

  lemma PriorityNamesParse(p: Priority)
    ensures ParsePriority(PriorityName(p)) == Some(p)
  {
  }

  lemma PriorityNameInjective(p: Priority, q: Priority)
    requires PriorityName(p) == PriorityName(q)
    ensures p == q
  {
  }

  /** The editable fields of a task after validation. `None` stands for an absent description or a `null` due date. */
  datatype TaskInput = TaskInput(
    title: string,
    description: Option<string>,
    tags: seq<string>,
    priority: Priority,
    dueDate: Option<string>)

  /** A stored task: the editable fields plus the system fields. */
  datatype Task = Task(id: string, input: TaskInput, status: Status, createdAt: string, updatedAt: string)

  /** The form's output handed to the store: the editable fields and the column to create the task in. */
  datatype TaskDraft = TaskDraft(input: TaskInput, status: Status)

  /** Form fields or a stored record's fields before validation; enumerations are still strings. */
  datatype RawInput = RawInput(
    title: string,
    description: Option<string>,
    tags: seq<string>,
    priority: string,
    dueDate: Option<string>)

  /**
   * One element of a parsed stored array: a record whose fields have the right
   * JSON types, or anything else (a missing key, a number where a string belongs, ...).
   */
  datatype RawTask =
    | RawTask(id: string, fields: RawInput, status: string, createdAt: string, updatedAt: string)
    | Malformed

  /** The field a validation issue is reported on. */
  datatype Field = TitleField | DescriptionField | TagsField | PriorityField | DueDateField | StatusField | RecordShape

  /** Exactly four digits, '-', two digits, '-', two digits: the pattern `^\d{4}-\d{2}-\d{2}$`. */
  predicate IsDateText(s: string) {
    |s| == 10 &&
    IsDigit(s[0]) && IsDigit(s[1]) && IsDigit(s[2]) && IsDigit(s[3]) && s[4] == '-' &&
    IsDigit(s[5]) && IsDigit(s[6]) && s[7] == '-' && IsDigit(s[8]) && IsDigit(s[9])
  }

  const MinTitle := 2
  const MaxTitle := 80
  const MaxDescription := 400
  const MaxTags := 6

  /** Between 2 and 80 UTF-16 code units once trimmed, as JavaScript measures length. */
  predicate TitleAccepted(title: string) {
    MinTitle <= Utf16Length(Trim(title)) <= MaxTitle
  }

  /**
   * A one-character title outside the Basic Multilingual Plane (an emoji,
   * say) is two code units long, so it meets the two-character minimum.
   */
  lemma AstralCharTitleAccepted(c: char)
    requires c as int > 0xFFFF
    ensures TitleAccepted([c])
  {
    var s := [c];
    assert !IsSpace(c);
    TrimOfTrimmed(s);
    assert s[1..] == [];
    assert Utf16Length(s) == 2;
  }

  /** An absent description is accepted; a present one must be at most 400 code units once trimmed (the empty string included). */
  predicate DescriptionAccepted(description: Option<string>) {
    description.None? || Utf16Length(Trim(description.value)) <= MaxDescription
  }

  /** At most six tags, none empty once trimmed (a string is empty in code units exactly when it has no character). */
  predicate TagsAccepted(tags: seq<string>) {
    |tags| <= MaxTags && forall i :: 0 <= i < |tags| ==> |Trim(tags[i])| >= 1
  }

  predicate DueDateAccepted(dueDate: Option<string>) {
    dueDate.None? || IsDateText(dueDate.value)
  }

  /** The fields of `raw` that the input schema rejects. */
  function InputIssues(raw: RawInput): set<Field> {
    (if TitleAccepted(raw.title) then {} else {TitleField}) +
    (if DescriptionAccepted(raw.description) then {} else {DescriptionField}) +
    (if TagsAccepted(raw.tags) then {} else {TagsField}) +
    (if ParsePriority(raw.priority).Some? then {} else {PriorityField}) +
    (if DueDateAccepted(raw.dueDate) then {} else {DueDateField})
  }

  lemma NoInputIssues(raw: RawInput)
    ensures InputIssues(raw) == {} <==>
      TitleAccepted(raw.title) && DescriptionAccepted(raw.description) && TagsAccepted(raw.tags) &&
      ParsePriority(raw.priority).Some? && DueDateAccepted(raw.dueDate)
  {
    if !TitleAccepted(raw.title) { assert TitleField in InputIssues(raw); }
    if !DescriptionAccepted(raw.description) { assert DescriptionField in InputIssues(raw); }
    if !TagsAccepted(raw.tags) { assert TagsField in InputIssues(raw); }
    if ParsePriority(raw.priority).None? { assert PriorityField in InputIssues(raw); }
    if !DueDateAccepted(raw.dueDate) { assert DueDateField in InputIssues(raw); }
  }

  /** Every tag trimmed, as the schema's element transform does. */
  function TrimAll(tags: seq<string>): (r: seq<string>)
    ensures |r| == |tags| && forall i :: 0 <= i < |tags| ==> r[i] == Trim(tags[i])
  {
    if |tags| == 0 then [] else [Trim(tags[0])] + TrimAll(tags[1..])
  }

  /** What every validated input satisfies: the constraints hold of the stored (trimmed) values. */
  predicate IsValidInput(v: TaskInput) {
    IsTrimmed(v.title) && MinTitle <= Utf16Length(v.title) <= MaxTitle &&
    (v.description.Some? ==> IsTrimmed(v.description.value) && Utf16Length(v.description.value) <= MaxDescription) &&
    |v.tags| <= MaxTags &&
    (forall i :: 0 <= i < |v.tags| ==> IsTrimmed(v.tags[i]) && |v.tags[i]| >= 1) &&
    DueDateAccepted(v.dueDate)
  }

  predicate IsValidTask(t: Task) {
    IsValidInput(t.input)
  }

  /**
   * The input schema: on success the title, description and tags come back
   * trimmed, and the result satisfies `IsValidInput`; on failure the error
   * names every rejected field and nothing else.
   */
  function ValidateInput(raw: RawInput): (r: Result<TaskInput, set<Field>>)
    ensures r.Ok? <==> InputIssues(raw) == {}
    ensures r.Ok? ==> IsValidInput(r.value)
    ensures r.Ok? ==> r.value.title == Trim(raw.title) && r.value.tags == TrimAll(raw.tags)
    ensures r.Ok? ==> PriorityName(r.value.priority) == raw.priority && r.value.dueDate == raw.dueDate
    ensures r.Ok? ==> (raw.description.None? <==> r.value.description.None?)
    ensures r.Ok? && raw.description.Some? ==> r.value.description == Some(Trim(raw.description.value))
    ensures r.Err? ==> r.error == InputIssues(raw)
  {
    var issues := InputIssues(raw);
    if issues != {} then Err(issues)
    else
      NoInputIssues(raw);
      CleanedIsValid(raw);
      Ok(Cleaned(raw))
  }

  /** The values the input schema hands on: trimmed strings and the parsed priority. */
  function Cleaned(raw: RawInput): (v: TaskInput)
    requires ParsePriority(raw.priority).Some?
  {
    var description := if raw.description.Some? then Some(Trim(raw.description.value)) else None;
    TaskInput(Trim(raw.title), description, TrimAll(raw.tags), ParsePriority(raw.priority).value, raw.dueDate)
  }

  lemma CleanedIsValid(raw: RawInput)
    requires TitleAccepted(raw.title) && DescriptionAccepted(raw.description) && TagsAccepted(raw.tags)
    requires ParsePriority(raw.priority).Some? && DueDateAccepted(raw.dueDate)
    ensures IsValidInput(Cleaned(raw))
  {
    var v := Cleaned(raw);
    assert IsTrimmed(v.title) && MinTitle <= Utf16Length(v.title) <= MaxTitle;
    forall i | 0 <= i < |v.tags| ensures IsTrimmed(v.tags[i]) && |v.tags[i]| >= 1 {
      assert v.tags[i] == Trim(raw.tags[i]);
    }
  }

  /** The stored-record schema: the input schema plus the status enumeration. */
  function ValidateTask(raw: RawTask): (r: Result<Task, set<Field>>)
    ensures r.Ok? <==> raw.RawTask? && ValidateInput(raw.fields).Ok? && ParseStatus(raw.status).Some?
    ensures r.Ok? ==> r.value.input == ValidateInput(raw.fields).value && IsValidTask(r.value)
    ensures r.Ok? ==> r.value.id == raw.id && StatusName(r.value.status) == raw.status
    ensures r.Ok? ==> r.value.createdAt == raw.createdAt && r.value.updatedAt == raw.updatedAt
    ensures r.Err? ==> r.error != {}
  {
    match raw
    case Malformed => Err({RecordShape})
    case RawTask(id, fields, status, createdAt, updatedAt) =>
      var statusIssue := if ParseStatus(status).Some? then {} else {StatusField};
      match ValidateInput(fields)
      case Err(issues) => Err(issues + statusIssue)
      case Ok(input) =>
        if statusIssue != {} then Err(statusIssue)
        else Ok(Task(id, input, ParseStatus(status).value, createdAt, updatedAt))
  }

  /**
   * The list schema: it succeeds exactly when every element does, with the
   * validated elements in order; otherwise it reports the first position that failed.
   */
  function ValidateList(items: seq<RawTask>): (r: Result<seq<Task>, nat>)
    ensures r.Ok? <==> forall i :: 0 <= i < |items| ==> ValidateTask(items[i]).Ok?
    ensures r.Ok? ==> |r.value| == |items| && forall i :: 0 <= i < |items| ==> ValidateTask(items[i]) == Ok(r.value[i])
    ensures r.Err? ==> r.error < |items| && ValidateTask(items[r.error]).Err?
  {
    CheckAll(items, ValidateTask)
  }

  function ToRawInput(v: TaskInput): RawInput {
    RawInput(v.title, v.description, v.tags, PriorityName(v.priority), v.dueDate)
  }

  /** The record a task is written as (the inverse direction of `ValidateTask`). */
  function ToRaw(t: Task): RawTask {
    RawTask(t.id, ToRawInput(t.input), StatusName(t.status), t.createdAt, t.updatedAt)
  }

  function ToRawList(ts: seq<Task>): (r: seq<RawTask>)
    ensures |r| == |ts| && forall i :: 0 <= i < |ts| ==> r[i] == ToRaw(ts[i])
  {
    seq(|ts|, i requires 0 <= i < |ts| => ToRaw(ts[i]))
  }

  lemma TrimAllOfTrimmed(tags: seq<string>)
    requires forall i :: 0 <= i < |tags| ==> IsTrimmed(tags[i])
    ensures TrimAll(tags) == tags
  {
    forall i | 0 <= i < |tags| ensures TrimAll(tags)[i] == tags[i] {
      TrimOfTrimmed(tags[i]);
    }
  }

  /** The stored form of a valid input raises no schema issue. */
  lemma ValidInputHasNoIssues(v: TaskInput)
    requires IsValidInput(v)
    ensures InputIssues(ToRawInput(v)) == {}
  {
    var raw := ToRawInput(v);
    assert TitleAccepted(raw.title) by {
      TrimOfTrimmed(v.title);
    }
    assert DescriptionAccepted(raw.description) by {
      if v.description.Some? {
        TrimOfTrimmed(v.description.value);
      }
    }
    assert TagsAccepted(raw.tags) by {
      forall i | 0 <= i < |v.tags| ensures |Trim(v.tags[i])| >= 1 {
        TrimOfTrimmed(v.tags[i]);
      }
    }
    assert ParsePriority(raw.priority).Some? by {
      PriorityNamesParse(v.priority);
    }
    NoInputIssues(raw);
  }

  /** A valid input passes the input schema unchanged. */
  lemma ValidateInputRoundTrip(v: TaskInput)
    requires IsValidInput(v)
    ensures ValidateInput(ToRawInput(v)) == Ok(v)
  {
    ValidInputHasNoIssues(v);
    var r := ValidateInput(ToRawInput(v));
    TrimOfTrimmed(v.title);
    if v.description.Some? {
      TrimOfTrimmed(v.description.value);
    }
    TrimAllOfTrimmed(v.tags);
    PriorityNameInjective(r.value.priority, v.priority);
  }

  /**
   * Writing a list of valid tasks as records and validating them again gives
   * back the same list, in the same order.
   */
  lemma ValidateListRoundTrip(ts: seq<Task>)
    requires forall i :: 0 <= i < |ts| ==> IsValidTask(ts[i])
    ensures ValidateList(ToRawList(ts)) == Ok(ts)
  {
    var raw := ToRawList(ts);
    forall i | 0 <= i < |ts| ensures ValidateTask(raw[i]) == Ok(ts[i]) {
      ValidateTaskRoundTrip(ts[i]);
    }
    ValidateListAllOk(raw, ts);
  }

  /** When every record validates to the task at its position, the list validates to those tasks. */
  lemma ValidateListAllOk(items: seq<RawTask>, ts: seq<Task>)
    requires |items| == |ts| && forall i :: 0 <= i < |items| ==> ValidateTask(items[i]) == Ok(ts[i])
    ensures ValidateList(items) == Ok(ts)
  {
    var r := ValidateList(items);
    assert r.Ok?;
    assert r.value == ts;
  }

  /** A valid task written as a record passes the record schema unchanged. */
  lemma ValidateTaskRoundTrip(t: Task)
    requires IsValidTask(t)
    ensures ValidateTask(ToRaw(t)) == Ok(t)
  {
    ValidateInputRoundTrip(t.input);
    StatusNamesParse(t.status);
  }

  /**
   * `createTask`: the draft's fields and status, the freshly generated `id`
   * and one timestamp for both `createdAt` and `updatedAt`.
   */
  function CreateTask(draft: TaskDraft, id: string, now: string): (t: Task)
    ensures t.id == id && t.createdAt == now && t.updatedAt == t.createdAt
    ensures t.input == draft.input && t.status == draft.status
  {
    Task(id, draft.input, draft.status, now, now)
  }
}
