# Kanban Flow task board — a verified Dafny model

Kanban Flow is a local-first task board written in Vue and TypeScript.
This project models its domain layer in Dafny and proves properties of that model.
It covers:

- the task records and the schema that validates them (`task.ts`);
- the pure filter engine: tag normalisation, the tag catalogue and multi-criteria filtering (`filters.ts`);
- the tasks store with its add, update, remove, move and hydrate actions (`tasksStore.ts`);
- the filter-bar state (`useFilters.ts`);
- the grouping of tasks into status columns (`useTasks.ts`);
- the toast list (`useToast.ts`);
- locale resolution, message lookup and `{name}` interpolation (`useI18n.ts`);
- the start-up load from storage and the write-back guard (`usePersist.ts`).

Modules, one file each:

| file | module | models |
|---|---|---|
| `wrappers.dfy` | `Wrappers` | `Option` and `Result` |
| `text.dfy` | `Text` | the string built-ins the code relies on: `trim`, `toLowerCase`, `split`, `join`, `includes`, `startsWith`, and the order used for sorting |
| `seqs.dfy` | `Seqs` | `Array.prototype.filter`, first-seen de-duplication through a `Set`, and an all-elements check in the manner of an array schema |
| `task_model.dfy` | `TaskModel` | `src/features/tasks/model/task.ts` |
| `filters.dfy` | `Filters` | `src/features/tasks/utils/filters.ts` |
| `tasks_store.dfy` | `TasksStore` | `src/features/tasks/store/tasksStore.ts`, as class `Store` |
| `filter_panel.dfy` | `FilterPanel` | `src/composables/useFilters.ts`, as class `FilterBar` |
| `board.dfy` | `Board` | `src/composables/useTasks.ts` |
| `toasts.dfy` | `Toasts` | `src/composables/useToast.ts`, as class `ToastCenter` |
| `i18n.dfy` | `I18n` | `src/composables/useI18n.ts`; the locale watcher is class `LocaleSettings` |
| `persist.dfy` | `Persist` | `src/composables/usePersist.ts`, as class `Persister` |

Ids, timestamps, storage contents, the browser language and JSON parsing results are parameters.
Examples are the `id` and `now` arguments of the store actions, and the `read` and `parse` arguments of `Persister`.
The message tables are an abstract `Catalog` of three maps.

Strings are approximated in ASCII:

- `trim` removes ASCII whitespace (space, tab, line feed, carriage return, vertical tab, form feed);
- `toLowerCase` lowers `A`–`Z` only;
- `localeCompare` is replaced by code-point lexicographic order (`Text.Below`).

A Dafny string is a sequence of Unicode code points, while JavaScript measures `length` in UTF-16 code units. The schema's length limits therefore go through `Text.Utf16Length`, which counts a character outside the Basic Multilingual Plane as two.

## Model

| member | source | states |
|---|---|---|
| Text.Trim | src/features/tasks/utils/filters.ts:24 | the result starts and ends with a non-space (or is empty) and is no longer than the input |
| Text.TrimStart | src/features/tasks/utils/filters.ts:24 | a suffix of the input that is empty or starts with a non-space |
| Text.TrimEnd | src/features/tasks/utils/filters.ts:24 | a prefix of the input that is empty or ends with a non-space |
| Text.TrimStartDropsSpaces | src/features/tasks/utils/filters.ts:24 | everything cut from the front is whitespace |
| Text.TrimEndDropsSpaces | src/features/tasks/utils/filters.ts:24 | everything cut from the end is whitespace |
| Text.TrimIsInfix | src/features/tasks/model/task.ts:23 | trimming only cuts text off the ends: the result occurs inside the input |
| Text.TrimEmptyIff | src/features/tasks/utils/filters.ts:50 | a string trims to empty exactly when it is all whitespace |
| Text.TrimOfTrimmed | src/features/tasks/model/task.ts:23 | trimming an already trimmed string changes nothing |
| Text.Lower | src/features/tasks/utils/filters.ts:24 | same length; each character lowered; the result has no upper-case letter |
| Text.LowerOfLower | src/features/tasks/utils/filters.ts:24 | lower-casing a string without upper-case letters changes nothing |
| Text.LowerKeepsTrimmed | src/features/tasks/utils/filters.ts:24 | lower-casing a trimmed string keeps it trimmed |
| Text.Split | src/features/tasks/utils/filters.ts:23 | at least one piece (so `""` gives `[""]`); no piece contains the separator |
| Text.SplitNoSeparator | src/features/tasks/utils/filters.ts:23 | a string without the separator splits into itself |
| Text.SplitFirstPiece | src/features/tasks/utils/filters.ts:23 | `a + sep + rest` splits into `a` followed by the pieces of `rest` |
| Text.JoinSplit | src/features/tasks/utils/filters.ts:23 | joining the pieces with the separator gives back the original string |
| Text.JoinHasPart | src/features/tasks/utils/filters.ts:66 | every part of a join occurs in the joined string |
| Text.Utf16Length | src/features/tasks/model/task.ts:21-31 | the JavaScript length: between one and two units per character, and equal to the character count exactly when no character lies outside the Basic Multilingual Plane |
| Text.ContainsIff | src/features/tasks/utils/filters.ts:67 | `includes` holds exactly when the query occurs at some position |
| Text.LowerOccurs | src/features/tasks/utils/filters.ts:66 | lower-casing keeps an occurrence at the same place |
| Text.OccursInPrefix | src/features/tasks/utils/filters.ts:66 | an occurrence in `a` is one in `a + b` at the same place |
| Text.OccursInSuffix | src/features/tasks/utils/filters.ts:66 | an occurrence in `b` is one in `a + b`, shifted by the length of `a` |
| Text.BelowIrreflexive | src/features/tasks/utils/filters.ts:37 | the sort order is strict |
| Text.BelowTransitive | src/features/tasks/utils/filters.ts:37 | the sort order is transitive |
| Text.BelowTotal | src/features/tasks/utils/filters.ts:37 | any two different strings are ordered one way or the other |
| Seqs.Filter | src/features/tasks/utils/filters.ts:53 | every kept element is from the input and passes; every passing input element is kept |
| Seqs.FilterIsSubsequence | src/features/tasks/utils/filters.ts:53 | filtering keeps the original order (a subsequence) |
| Seqs.FilterKeepsAll | src/features/tasks/utils/filters.ts:53 | when every element passes, the result is the input |
| Seqs.FilterSplits | src/composables/useTasks.ts:21 | the results for a predicate and its negation together hold the input, multiplicities included |
| Seqs.FilterAppend | src/composables/useFilters.ts:22 | filtering `s + [x]` is filtering `s`, then `x` if it passes |
| Seqs.FilterDropsOne | src/composables/useFilters.ts:22 | removing an element that occurs once shortens a repeat-free list by one |
| Seqs.SubsequenceSkip | src/features/tasks/store/tasksStore.ts:59 | a subsequence of the tail is a subsequence of the whole |
| Seqs.SubsequenceReflexive | src/composables/useFilters.ts:24 | every sequence is a subsequence of itself |
| Seqs.SubsequenceExtend | src/composables/useFilters.ts:22-26 | a subsequence of `s` is a subsequence of `s` with one more element at the end |
| Seqs.SubsequenceElements | src/features/tasks/store/tasksStore.ts:59 | every element of a subsequence occurs in the sequence |
| Seqs.SubsequenceNoDuplicates | src/composables/useFilters.ts:22 | a subsequence of a repeat-free list is repeat-free |
| Seqs.FirstIndex | src/features/tasks/utils/filters.ts:27 | the position of the first occurrence |
| Seqs.Dedup | src/features/tasks/utils/filters.ts:27 | no repeats; exactly the input's elements |
| Seqs.FirstIndexInPrefix | src/features/tasks/utils/filters.ts:27 | an element first seen within a prefix is first seen at the same place in the whole |
| Seqs.DedupUnfold | src/features/tasks/utils/filters.ts:27 | a `Set` is built element by element: an element already seen adds nothing, a new one is appended |
| Seqs.DedupFirstSeenOrder | src/features/tasks/utils/filters.ts:27 | de-duplication keeps elements in the order they were first seen |
| Seqs.DedupOfDistinct | src/composables/useFilters.ts:20 | a repeat-free list goes through a `Set` unchanged |
| Seqs.CheckAll | src/features/tasks/model/task.ts:56 | succeeds iff every element's check succeeds, with the results in order; otherwise the first failing position |
| TaskModel.ParseStatus | src/features/tasks/model/task.ts:8-9 | only the three status names are accepted, each to the status it names |
| TaskModel.StatusNamesParse | src/features/tasks/model/task.ts:8-9 | each status's name parses back to that status |
| TaskModel.ParsePriority | src/features/tasks/model/task.ts:11-12 | only the three priority names are accepted |
| TaskModel.PriorityNamesParse | src/features/tasks/model/task.ts:11-12 | each priority's name parses back to that priority |
| TaskModel.PriorityNameInjective | src/features/tasks/model/task.ts:11-12 | different priorities have different names |
| TaskModel.NoInputIssues | src/features/tasks/model/task.ts:20-35 | an input has no issue exactly when its title, description, tags, priority and due date are all accepted |
| TaskModel.AstralCharTitleAccepted | src/features/tasks/model/task.ts:21-25 | a one-character title outside the Basic Multilingual Plane (an emoji) is two units long and so is accepted |
| TaskModel.TrimAll | src/features/tasks/model/task.ts:32 | every tag is trimmed, count unchanged |
| TaskModel.ValidateInput | src/features/tasks/model/task.ts:20-35 | succeeds iff there are no issues; the title, description and tags come back trimmed and valid; priority and due date carry over; otherwise the rejected fields |
| TaskModel.CleanedIsValid | src/features/tasks/model/task.ts:20-35 | the trimmed values of an accepted input satisfy the task invariants |
| TaskModel.ValidateTask | src/features/tasks/model/task.ts:49-54 | a record is valid iff its input fields are valid and its status is one of the three; the system fields carry over |
| TaskModel.ValidateList | src/features/tasks/model/task.ts:56 | a list is valid iff every element is, and the results correspond element by element |
| TaskModel.ToRawList | src/features/tasks/model/task.ts:56 | a task list is written as one record per task, in order |
| TaskModel.TrimAllOfTrimmed | src/features/tasks/model/task.ts:32 | trimmed tags are left as they are |
| TaskModel.ValidInputHasNoIssues | src/features/tasks/model/task.ts:20-35 | the written form of a valid input raises no issue |
| TaskModel.ValidateInputRoundTrip | src/features/tasks/model/task.ts:20-35 | a valid input passes validation unchanged |
| TaskModel.ValidateListRoundTrip | src/features/tasks/model/task.ts:49-56 | writing valid tasks as records and validating them again gives back the same list |
| TaskModel.ValidateTaskRoundTrip | src/features/tasks/model/task.ts:49-54 | a valid task written as a record validates back to itself |
| TaskModel.ValidateListAllOk | src/features/tasks/model/task.ts:56 | when every record validates to the task at its position, the list validates to exactly those tasks |
| TaskModel.CreateTask | src/features/tasks/model/task.ts:63-72 | the new task has the generated id, one timestamp for both times, and the draft's fields and status |
| Filters.CleanTag | src/features/tasks/utils/filters.ts:24 | a cleaned piece is trimmed and has no upper-case letter |
| Filters.CleanTags | src/features/tasks/utils/filters.ts:24 | every piece is cleaned, in order |
| Filters.CleanTagsAreClean | src/features/tasks/utils/filters.ts:24 | every cleaned piece is trimmed and has no upper-case letter |
| Filters.TagTokens | src/features/tasks/utils/filters.ts:22-25 | every token is non-empty, trimmed and lower-case |
| Filters.FirstDistinct | src/features/tasks/utils/filters.ts:27 | exactly six tokens when there are more than six distinct ones, else all of them; no repeats; all from the input |
| Filters.FirstDistinctKeepsEarliest | src/features/tasks/utils/filters.ts:27 | a token first seen before a kept token is kept, so with the length the result is the first six distinct tokens |
| Filters.FirstDistinctOrder | src/features/tasks/utils/filters.ts:27 | the kept tokens are in first-seen order |
| Filters.FirstDistinctComplete | src/features/tasks/utils/filters.ts:27 | below the cap, every token is kept |
| Filters.NormalizeTags | src/features/tasks/utils/filters.ts:21-28 | six tags when there are more than six distinct tokens, else all of them; no repeats; each non-empty, trimmed and lower-case; each a token of the input |
| Filters.NormalizeTagsKeepsEarliest | src/features/tasks/utils/filters.ts:27 | above the cap, a tag first written before a kept tag is kept too |
| Filters.NormalizeTagsFirstSeenOrder | src/features/tasks/utils/filters.ts:27 | tags come out in the order they were first written |
| Filters.NormalizeTagsKeepsEveryTag | src/features/tasks/utils/filters.ts:22-27 | below the cap, every non-empty cleaned piece is among the tags |
| Filters.NormalizedTagsAccepted | src/features/tasks/model/task.ts:32 | normalised tags always meet the schema's tag constraints |
| Filters.AllTags | src/features/tasks/utils/filters.ts:33-35 | exactly the tags of all tasks |
| Filters.InsertSorted | src/features/tasks/utils/filters.ts:37 | inserting into a strictly sorted list keeps it strictly sorted, adding exactly one element |
| Filters.InsertAll | src/features/tasks/utils/filters.ts:31-38 | the result is strictly sorted and holds the accumulator and the new elements |
| Filters.ExtractTags | src/features/tasks/utils/filters.ts:31-38 | strictly sorted (so no repeats) and holding exactly the union of the tasks' tags |
| Filters.SortedListUnique | src/features/tasks/utils/filters.ts:37 | two strictly sorted lists with the same elements are equal |
| Filters.ExtractTagsOrderIndependent | src/features/tasks/utils/filters.ts:31-38 | the catalogue depends only on which tasks there are, not their order |
| Filters.ExtractTagsExample | src/features/tasks/utils/filters.test.ts:33-38 | tags `design, api` and `api, ops` give `api, design, ops` |
| Filters.LowerAll | src/features/tasks/utils/filters.ts:51 | each tag lowered, in order |
| Filters.Haystack | src/features/tasks/utils/filters.ts:65-66 | lower-case text in which the lowered title occurs at the start, the lowered description right after it, and every lowered tag somewhere |
| Filters.HaystackHasTitle | src/features/tasks/utils/filters.ts:66 | the lowered title starts the haystack |
| Filters.HaystackHasDescription | src/features/tasks/utils/filters.ts:66 | the lowered description follows the title and a space |
| Filters.HaystackHasTags | src/features/tasks/utils/filters.ts:66 | every lowered tag occurs in the lowered joined tags at the end |
| Filters.Matches | src/features/tasks/utils/filters.ts:53-71 | a task passes exactly when its priority is the selected one (or any), every selected tag is among its tags ignoring case, and the normalised query is blank or occurs at some position of the haystack |
| Filters.ApplyTaskFilters | src/features/tasks/utils/filters.ts:49-72 | a kept task is from the input and has the selected priority, all selected tags (ignoring case) and the query in its text; a task passing all three is kept |
| Filters.ApplyTaskFiltersKeepsOrder | src/features/tasks/utils/filters.ts:53 | the result is a subsequence of the input |
| Filters.NoCriteriaKeepsAll | src/features/tasks/utils/filters.ts:50-64 | priority `all`, no tags and a blank query keep every task |
| Filters.DefaultFiltersKeepAll | src/features/tasks/utils/filters.ts:14-18 | the default filters keep every task |
| Filters.QueryPassesIff | src/features/tasks/utils/filters.ts:64-68 | the query check passes iff the trimmed, lowered query occurs in the lowered title, description and tags |
| TasksStore.FindIndex | src/features/tasks/store/tasksStore.ts:43-44 | the first position with the id, or none when no task has it |
| TasksStore.ReplaceAt | src/features/tasks/store/tasksStore.ts:53 | same length; only the given position changes |
| TasksStore.WithoutId | src/features/tasks/store/tasksStore.ts:59 | no task with the id remains; every other task does |
| TasksStore.Revised | src/features/tasks/store/tasksStore.ts:46-51 | id, status and creation time kept; editable fields from the input; update time is now |
| TasksStore.Relabeled | src/features/tasks/store/tasksStore.ts:69-70 | only the status and the update time change |
| TasksStore.Store.constructor | src/features/tasks/store/tasksStore.ts:22-25 | no tasks, not hydrated |
| TasksStore.Store.Hydrate | src/features/tasks/store/tasksStore.ts:28-30 | the list is replaced wholesale; the flag stays |
| TasksStore.Store.SetHydrated | src/features/tasks/store/tasksStore.ts:32-34 | only the flag changes |
| TasksStore.Store.AddTask | src/features/tasks/store/tasksStore.ts:36-40 | the created task is returned and put in front of the unchanged list; fresh ids keep ids distinct |
| TasksStore.Store.UpdateTask | src/features/tasks/store/tasksStore.ts:42-56 | unknown id: none, nothing changes; otherwise only the first match is replaced by its revision, which is returned |
| TasksStore.Store.RemoveTask | src/features/tasks/store/tasksStore.ts:58-60 | the list without the id; distinct ids stay distinct |
| TasksStore.Store.MoveTask | src/features/tasks/store/tasksStore.ts:65-73 | true exactly when the id is found with another status, and then only that task is relabelled; otherwise nothing changes |
| TasksStore.AddKeepsUniqueIds | src/features/tasks/store/tasksStore.ts:38 | prepending a task with a fresh id keeps ids distinct |
| TasksStore.ReplaceKeepsUniqueIds | src/features/tasks/store/tasksStore.ts:53 | replacing a task by one with the same id keeps ids distinct |
| TasksStore.SubsequenceKeepsUniqueIds | src/features/tasks/store/tasksStore.ts:59 | deleting tasks keeps ids distinct |
| TasksStore.RemoveKeepsUniqueIds | src/features/tasks/store/tasksStore.ts:59 | removal keeps ids distinct |
| TasksStore.RemoveKeepsOrder | src/features/tasks/store/tasksStore.ts:59 | removal keeps the other tasks in order |
| TasksStore.RemoveMissingIsNoOp | src/features/tasks/store/tasksStore.ts:59 | removing an absent id changes nothing |
| TasksStore.RemoveUndoesAdd | src/features/tasks/store/tasksStore.ts:36-40 | removing a task just added with a fresh id restores the previous list |
| TasksStore.FindIndexAt | src/features/tasks/store/tasksStore.ts:43 | the first position holding the id is the one found |
| TasksStore.UpdateThenFind | src/features/tasks/store/tasksStore.ts:42-56 | after an update the task is found at the same place with the new fields |
| TasksStore.MoveTwiceReportsNoChange | src/features/tasks/store/tasksStore.ts:65-73 | after a move the task is found at the same place with the new status, so a second identical move reports false |
| FilterPanel.AvailableTags | src/composables/useFilters.ts:16 | the sorted, repeat-free union of the tasks' tags |
| FilterPanel.Toggled | src/composables/useFilters.ts:19-27 | no repeats; the tag is selected afterwards exactly when it was not before, and then it is last; other tags keep their selection and the order in which they were first selected (a subsequence of the de-duplicated tags followed by the tag) |
| FilterPanel.ActiveCount | src/composables/useFilters.ts:35-38 | zero exactly when the query is empty, the priority is `all` and no tag is selected |
| FilterPanel.FilterBar.constructor | src/composables/useFilters.ts:13 | starts from the default filters |
| FilterPanel.FilterBar.ToggleTag | src/composables/useFilters.ts:19-27 | only the tags change, to the toggled list; on a repeat-free list the count moves by one |
| FilterPanel.FilterBar.ClearFilters | src/composables/useFilters.ts:30-32 | back to the defaults, with a count of zero |
| FilterPanel.ToggleCount | src/composables/useFilters.ts:19-27 | on a repeat-free list a toggle removes or adds exactly one criterion |
| FilterPanel.ToggleTwiceRestores | src/composables/useFilters.ts:19-27 | toggling an unselected tag twice restores the exact list |
| FilterPanel.ToggleTwiceSameSelection | src/composables/useFilters.ts:19-27 | toggling a selected tag twice keeps the same selection, with that tag moved last |
| FilterPanel.NoActiveCriteriaKeepsAll | src/composables/useFilters.ts:35-38 | a count of zero means nothing is filtered out |
| FilterPanel.BlankQueryCountedButInert | src/composables/useFilters.ts:37 | any non-empty query made only of whitespace counts once on the badge yet filters nothing out |
| Board.Column | src/composables/useTasks.ts:21 | exactly the tasks with that status |
| Board.TasksByStatus | src/composables/useTasks.ts:18-26 | one entry for each of the three statuses, holding exactly that status's tasks |
| Board.ColumnsPartition | src/composables/useTasks.ts:18-26 | the three columns together hold the store's tasks, multiplicities included |
| Board.ColumnSizesSum | src/composables/useTasks.ts:18-26 | the column sizes add up to the number of tasks |
| Board.TaskCount | src/composables/useTasks.ts:29 | the count shown equals the sum of the three column sizes |
| Board.ColumnKeepsOrder | src/composables/useTasks.ts:21 | each column is in store order |
| Board.ColumnUnfold | src/composables/useTasks.ts:21 | a column is built task by task from the front |
| Toasts.Pushed | src/composables/useToast.ts:31 | the new toast first, the old ones after it in order, never more than five |
| Toasts.WithoutToast | src/composables/useToast.ts:20-22 | no toast with that id remains; every other one does |
| Toasts.ToastCenter.constructor | src/composables/useToast.ts:17 | an empty list |
| Toasts.ToastCenter.PushToast | src/composables/useToast.ts:29-36 | kind defaults to info and timeout to 3200; the list is pushed; removal is requested only for a positive delay |
| Toasts.ToastCenter.RemoveToast | src/composables/useToast.ts:20-22 | the list without that id |
| Toasts.PushOntoFullDropsOldest | src/composables/useToast.ts:31 | on a full list the last (oldest) toast is dropped |
| Toasts.PushBelowLimitKeepsAll | src/composables/useToast.ts:31 | below the limit nothing is dropped |
| Toasts.RemoveUndoesPush | src/composables/useToast.ts:20-31 | removing a toast just pushed onto a non-full list restores the list |
| Toasts.RemoveKeepsOrder | src/composables/useToast.ts:21 | the remaining toasts stay in order |
| Toasts.RemoveUnknownIsNoOp | src/composables/useToast.ts:21 | removing an unknown id changes nothing |
| I18n.ParseLocale | src/composables/useI18n.ts:25 | only `en`, `zh` and `ja` are accepted, each to its locale |
| I18n.ResolveInitialLocale | src/composables/useI18n.ts:21-31 | English without a window; a valid saved choice wins; else Chinese or Japanese by the browser language's prefix; else English |
| I18n.SavedLocaleWins | src/composables/useI18n.ts:24-25 | a saved locale is chosen at the next start whatever the browser says |
| I18n.LangAttribute | src/composables/useI18n.ts:385-390 | the attribute begins with the locale's code (`zh-Hant` for Chinese) |
| I18n.LangAttributeInjective | src/composables/useI18n.ts:388 | different locales get different attributes |
| I18n.WordRun | src/composables/useI18n.ts:373 | the longest run of `\w` characters at the start |
| I18n.PlaceholderEnd | src/composables/useI18n.ts:373 | a match is `{`, one or more word characters, `}` |
| I18n.Interpolate | src/composables/useI18n.ts:371-374 | without parameters, or without `{`, the template comes back unchanged |
| I18n.Substitute | src/composables/useI18n.ts:373 | the global `replace`: text without `{` is left as it is; the lemmas below fix placeholders, literal text and unmatched braces |
| I18n.SubstituteLiteralPrefix | src/composables/useI18n.ts:373 | text without `{` is copied and the rest is substituted on its own |
| I18n.WordRunOf | src/composables/useI18n.ts:373 | the word run stops at the first non-word character |
| I18n.SubstitutePlaceholder | src/composables/useI18n.ts:373 | `{w}` becomes the parameter `w`, or nothing when it is missing |
| I18n.UnmatchedBraceKept | src/composables/useI18n.ts:373 | a `{` followed by a character that ends its word run without closing it is kept, and scanning resumes after it |
| I18n.UnmatchedBraceAtEnd | src/composables/useI18n.ts:373 | a `{` whose word run (possibly empty) reaches the end of the template is kept, with the run after it |
| I18n.FillsTrailingPlaceholder | src/composables/useI18n.ts:54 | a message like `Moved to {status}` comes out as its text followed by the value |
| I18n.Template | src/composables/useI18n.ts:378 | the locale's message, else the English one, else the key |
| I18n.Translate | src/composables/useI18n.ts:377-380 | without parameters, or when the chosen template has no `{`, the chosen template is shown as it is |
| I18n.UnknownKeyShownAsItself | src/composables/useI18n.ts:377-380 | a key no table has, and without `{`, is shown as itself |
| I18n.EnglishUsesEnglishTable | src/composables/useI18n.ts:378 | in English only the English table is consulted |
| I18n.LocaleSettings.constructor | src/composables/useI18n.ts:361 | the resolved locale, then the watcher's first run |
| I18n.LocaleSettings.SetLocale | src/composables/useI18n.ts:404-413 | the new locale is stored (with a window) and set as `lang` (with a document) |
| I18n.LocaleSettings.Apply | src/composables/useI18n.ts:406-411 | the watcher writes the code to storage and the attribute to the page |
| Persist.CheckTaskList | src/features/tasks/model/task.ts:56 | succeeds iff the value is an array whose every record is valid |
| Persist.Load | src/composables/usePersist.ts:26-43 | nothing stored (absent or empty) changes nothing; a throw while reading or parsing is `persist.unreadable`; parsed data failing the schema is `persist.corrupt`; valid data is loaded |
| Persist.LoadedTasksAreValid | src/composables/usePersist.ts:31-33 | every loaded task meets the task invariants |
| Persist.SavedTasksReload | src/composables/usePersist.ts:30-33 | valid tasks that parse back to their records are loaded unchanged |
| Persist.Persister.constructor | src/composables/usePersist.ts:26-43 | an already hydrated store is untouched; otherwise the load outcome is applied and the store is always marked hydrated |
| Persist.Persister.OnTasksChanged | src/composables/usePersist.ts:46-53 | the list is written only once the store is hydrated |

## Left out

- Unicode: `trim` and `toLowerCase` are modelled on ASCII only, so non-ASCII whitespace and letters are treated differently.
- Text.Below: `localeCompare` is modelled as plain code-point order. This differs even on ASCII: `localeCompare` puts `"a"` before `"B"` and orders punctuation such as `"_x"` and digits such as `"1x"` differently. Stored tags are trimmed but not lower-cased, so `ExtractTags` may list mixed-case or punctuated tags in another order than the code.
- Text.Utf16Length: a lone surrogate code unit, which JavaScript strings allow, cannot occur in a Dafny string and is not modelled.
- Filters.NormalizeTags: the test vector `"Design, api, design , , UX"` → `design, api, ux` is not restated as a lemma. The properties it checks (trim, lower-case, empty pieces dropped, first-seen order, cap) are proved for all inputs.
- Filters.ApplyTaskFilters: the three test vectors for query, priority and tag filtering are not restated as lemmas. The criteria they check are proved for all inputs.
- TaskModel.ValidateList: zod reports every issue of every element. The model reports only the first failing position, and the callers use only success or failure.
- TaskModel.ValidateInput: zod's issue messages are not modelled, only the set of rejected fields.
- JSON `parse` and `stringify` are parameters. A JSON value is either an array of records, each well-typed or `Malformed`, or something else.
- TasksStore.Store.UpdateTask: `...input` is assumed to carry every editable key. An input object with no `description` key at all would keep the old description; that case is not modelled.
- TasksStore.Store.MoveTask: the code mutates the found task object in place. Objects shared elsewhere (such as a task returned earlier by `addTask`) would see the change; tasks are values here, so that aliasing is not modelled.
- Ids, clocks and randomness (`crypto.randomUUID`, `Date.now`, `Math.random`, `toISOString`) are parameters. No ordering of timestamps is claimed.
- Toasts.ToastCenter.PushToast: the `setTimeout` timer is not modelled. The method returns the delay after which `RemoveToast` should run.
- Number parameters of `interpolate` (`string | number`) are taken as already converted to strings.
- I18n.Substitute: a placeholder naming an inherited object property (such as `{constructor}`) would read that property; parameters are modelled as a plain map without such entries.
- The contents of the message tables are left abstract.
- Vue and Pinia reactivity (`ref`, `computed`, `watch` scheduling, the one-time watcher registration) is not modelled. Watchers are explicit methods.
- `localStorage` and `document` are modelled as the values read and written (`Persister.written`, `LocaleSettings.stored` and `lang`).
- Persist.Load: a stored text that is not valid JSON makes `JSON.parse` throw, so the code reports `persist.unreadable` for it, not `persist.corrupt`. The model follows the code.
- The router, the application entry point, the configuration files and the tests are not part of this model.
