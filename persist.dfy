/**
 * Saving the board in the browser's storage. At start-up the stored text is
 * read, parsed as JSON and checked against the task-list schema; the result
 * either fills the store or becomes an error key for the interface. Later
 * changes are written back once the first load is over.
 *
 * Reading storage and parsing JSON are inputs: `read` is what the storage
 * read produced (or that it threw), and `parse` is what JSON parsing makes
 * of a text (or that it threw).
 */
module Persist {
  import opened Wrappers
  import opened TaskModel
  import opened TasksStore

  /** The storage key the task list lives under. */
  const StorageKey := "kanban-flow.tasks.v1"

  datatype ErrorKey = Corrupt | Unreadable

  /** The message id handed to the interface. */
  function ErrorCode(e: ErrorKey): string {
    match e
    case Corrupt => "persist.corrupt"
    case Unreadable => "persist.unreadable"
  }

  /** The outcome of reading the stored text: it threw, or gave a text or nothing. */
  datatype StorageRead = ReadThrew | Read(raw: Option<string>)

  /** A parsed JSON value, as far as the schema check looks at it. */
  datatype Json = JArray(items: seq<RawTask>) | JOther

  datatype JsonParse = SyntaxError | Parsed(value: Json)

  /** `taskListSchema.safeParse`: an array whose every element is a valid task. */
  function CheckTaskList(v: Json): (r: Option<seq<Task>>)
    ensures r.Some? <==> v.JArray? && ValidateList(v.items).Ok?
    ensures r.Some? ==> r.value == ValidateList(v.items).value
  {
    match v
    case JOther => None
    case JArray(items) =>
      var checked := ValidateList(items);
      if checked.Ok? then Some(checked.value) else None
  }

  /** What the first load decides. */
  datatype LoadOutcome = Loaded(tasks: seq<Task>) | NothingStored | Failed(error: ErrorKey)

  /**
   * The start-up decision: nothing stored (no entry, or an empty text)
   * changes nothing; a throw while reading or parsing is `Unreadable`;
   * parsed data failing the schema is `Corrupt`; valid data is loaded.
   */
  function Load(read: StorageRead, parse: string -> JsonParse): (r: LoadOutcome)
    ensures r == NothingStored <==> read.Read? && (read.raw.None? || read.raw.value == "")
    ensures r == Failed(Unreadable) <==>
      read.ReadThrew? || (read.Read? && read.raw.Some? && read.raw.value != "" && parse(read.raw.value).SyntaxError?)
    ensures r.Loaded? <==>
      read.Read? && read.raw.Some? && read.raw.value != "" && parse(read.raw.value).Parsed? &&
      CheckTaskList(parse(read.raw.value).value).Some?
    ensures r.Loaded? ==> r.tasks == CheckTaskList(parse(read.raw.value).value).value
  {
    match read
    case ReadThrew => Failed(Unreadable)
    case Read(raw) =>
      if raw.None? || raw.value == "" then NothingStored
      else
        match parse(raw.value)
        case SyntaxError => Failed(Unreadable)
        case Parsed(v) =>
          match CheckTaskList(v)
          case Some(tasks) => Loaded(tasks)
          case None => Failed(Corrupt)
  }

  /** Every loaded task satisfies the task schema's invariants. */
  lemma LoadedTasksAreValid(read: StorageRead, parse: string -> JsonParse)
    requires Load(read, parse).Loaded?
    ensures forall i :: 0 <= i < |Load(read, parse).tasks| ==> IsValidTask(Load(read, parse).tasks[i])
  {
  }

  /**
   * A list of valid tasks that was written and parses back to the same
   * records is loaded unchanged at the next start-up.
   */
  lemma SavedTasksReload(tasks: seq<Task>, raw: string, parse: string -> JsonParse)
    requires forall i :: 0 <= i < |tasks| ==> IsValidTask(tasks[i])
    requires raw != "" && parse(raw) == Parsed(JArray(ToRawList(tasks)))
    ensures Load(Read(Some(raw)), parse) == Loaded(tasks)
  {
    ValidateListRoundTrip(tasks);
  }

  class Persister {
    const store: Store
    var errorKey: Option<ErrorKey>
    /** What was last written under `StorageKey`, if anything. */
    var written: Option<seq<Task>>

    /**
     * `usePersist` at start-up. A store that is already hydrated is left
     * alone. Otherwise the load outcome is applied and, whatever it was,
     * the store is marked hydrated.
     */
    constructor(store: Store, read: StorageRead, parse: string -> JsonParse)
      modifies store
      ensures this.store == store && written == None
      ensures old(store.hydrated) ==> store.tasks == old(store.tasks) && store.hydrated && errorKey == None
      ensures !old(store.hydrated) ==> store.hydrated
      ensures !old(store.hydrated) ==>
        match Load(read, parse)
        case Loaded(tasks) => store.tasks == tasks && errorKey == None
        case NothingStored => store.tasks == old(store.tasks) && errorKey == None
        case Failed(e) => store.tasks == old(store.tasks) && errorKey == Some(e)
    {
      this.store := store;
      errorKey := None;
      written := None;
      new;
      if !store.hydrated {
        var outcome := Load(read, parse);
        if outcome.Loaded? {
          store.Hydrate(outcome.tasks);
        } else if outcome.Failed? {
          errorKey := Some(outcome.error);
        }
        store.SetHydrated(true);
      }
    }

    /** The watcher on the task list: writes it back only once the first load is over. */
    method OnTasksChanged()
      modifies this
      ensures errorKey == old(errorKey)
      ensures written == if store.hydrated then Some(store.tasks) else old(written)
    {
      if store.hydrated {
        written := Some(store.tasks);
      }
    }
  }
}
