# Project-mapper field: association editing

A Dafny model of the editing logic in Sentry's project-mapper form field
(`RenderField` in `projectMapperField.tsx`). The field takes a list of
associations from its host form. Each association pairs a Sentry project id
with a mapped value, which is a string or a number. The field:

- shows one row per association, with the project and the mapped item looked
  up by key, or "Deleted" for a key that is no longer found;
- offers two dropdowns that list only projects and items whose key no
  association uses yet;
- keeps two selection slots, both empty at first;
- has an Add button, enabled only while both selections are truthy, that
  appends the selected pair, reports the new list through `onChange` and
  `onBlur` with an empty error list, and clears both slots;
- has a per-row delete button that reports the list without that row.

Modules:

- `Wrappers`: the `Option` type used for the selection slots.
- `JsArray`: the index clamping of JavaScript's `Array.prototype.slice`, which
  the delete handler relies on.
- `ProjectMapper`: the data model and every handler and derived list, as pure
  functions.
- `ProjectMapperProperties`: lemmas that relate the operations. They cover the
  order of options, last-entry-wins lookups, Delete undoing Add, and that both
  transitions keep keys distinct.
- `ProjectMapperSession`: the field as a run of user actions. A user can only
  pick offered entries, click Add while it is enabled, and delete existing
  rows. Under those rules no project id or mapped value is ever used twice.
  This assumes the host stores every list a callback reports. With no
  callback supplied, nothing reaches the host and its value stays as it was.

`AddEnabled` follows the code's JavaScript truthiness test, which is stricter
than "both chosen": a selected project id `0`, or a mapped value `0` or `""`,
leaves Add disabled.

## Model

| member | source | states |
|---|---|---|
| ProjectMapper.ProjectOptions | src/sentry/static/sentry/app/views/settings/components/forms/projectMapperField.tsx:61-66 | an entry is offered iff some supplied project has that slug and id and its id is not used by an association; no offered value is a used id; there are never more entries than projects |
| ProjectMapper.MappedOptions | src/sentry/static/sentry/app/views/settings/components/forms/projectMapperField.tsx:62-70 | an item is offered iff it is supplied and its value is not used by an association; there are never more entries than items |
| ProjectMapperProperties.ProjectOptionsConcat | src/sentry/static/sentry/app/views/settings/components/forms/projectMapperField.tsx:64-66 | the project options of `a + b` are those of `a` followed by those of `b`, so the filter keeps the supplied order |
| ProjectMapperProperties.MappedOptionsConcat | src/sentry/static/sentry/app/views/settings/components/forms/projectMapperField.tsx:68-70 | the item options of `a + b` are those of `a` followed by those of `b` |
| ProjectMapperProperties.ProjectOptionsKeepPosition | src/sentry/static/sentry/app/views/settings/components/forms/projectMapperField.tsx:64-66 | an unused project's entry appears exactly at its place between the options of the projects before and after it |
| ProjectMapperProperties.OfferedOptionsAreFresh | src/sentry/static/sentry/app/views/settings/components/forms/projectMapperField.tsx:60-70 | no offered project id and no offered item value equals a key of an existing association |
| ProjectMapperProperties.NoAssociationsOfferAllProjects | src/sentry/static/sentry/app/views/settings/components/forms/projectMapperField.tsx:64-66 | with no associations, the project options are every supplied project, in order, each labelled with its slug and valued with its id |
| ProjectMapperProperties.NoAssociationsOfferAllItems | src/sentry/static/sentry/app/views/settings/components/forms/projectMapperField.tsx:68-70 | with no associations, the item options are exactly the supplied items, in order |
| ProjectMapperProperties.AbsentValueIsEmpty | src/sentry/static/sentry/app/views/settings/components/forms/projectMapperField.tsx:47 | an absent value reads as no associations: no rows, every supplied project offered in order with its slug and id, every supplied item offered in order, and an enabled Add reports just the selected pair |
| ProjectMapperProperties.AddUsesSelectedKeys | src/sentry/static/sentry/app/views/settings/components/forms/projectMapperField.tsx:61-62 | after Add the used project ids are the old ones plus the selected id, and the used mapped values are the old ones plus the selected value |
| ProjectMapper.IndexBy | src/sentry/static/sentry/app/views/settings/components/forms/projectMapperField.tsx:51-58 | the lookup table's keys are exactly the keys of the supplied elements, and each key maps to a supplied element with that key |
| ProjectMapper.ProjectsById | src/sentry/static/sentry/app/views/settings/components/forms/projectMapperField.tsx:52-54 | every supplied project's id is a key, and each key maps to a supplied project with that id |
| ProjectMapper.ItemsByValue | src/sentry/static/sentry/app/views/settings/components/forms/projectMapperField.tsx:56-58 | every supplied item's value is a key, and each key maps to a supplied item with that value |
| ProjectMapperProperties.IndexByLastWins | src/sentry/static/sentry/app/views/settings/components/forms/projectMapperField.tsx:51-58 | a key maps to the last supplied element with that key |
| ProjectMapperProperties.ProjectsByIdFinds | src/sentry/static/sentry/app/views/settings/components/forms/projectMapperField.tsx:52-54 | with distinct project ids, looking a project's id up gives that project |
| ProjectMapper.SelectProject | src/sentry/static/sentry/app/views/settings/components/forms/projectMapperField.tsx:72-74 | choosing a project sets the project slot to that id and leaves the mapped-value slot as it was |
| ProjectMapper.SelectMapped | src/sentry/static/sentry/app/views/settings/components/forms/projectMapperField.tsx:76-78 | choosing an item sets the mapped-value slot to its value and leaves the project slot as it was |
| ProjectMapper.AddEnabled | src/sentry/static/sentry/app/views/settings/components/forms/projectMapperField.tsx:232 | Add is enabled iff both slots are set, the project id is not 0, and the mapped value is neither 0 nor the empty string |
| ProjectMapper.Notify | src/sentry/static/sentry/app/views/settings/components/forms/projectMapperField.tsx:87-88 | one call per supplied callback, `onChange` first and `onBlur` last, each with the same list and an empty error list |
| ProjectMapper.Add | src/sentry/static/sentry/app/views/settings/components/forms/projectMapperField.tsx:80-90 | the reported list is one longer, keeps every earlier association, and ends with the selected pair; both callbacks get it; the next state is the initial one (line 35) |
| ProjectMapper.Delete | src/sentry/static/sentry/app/views/settings/components/forms/projectMapperField.tsx:92-99 | for an index in range, the reported list is one shorter, keeps the elements before the index, and shifts later ones down by one; for an index at or past the end it is unchanged; both callbacks get it; the selection is untouched |
| JsArray.Slice | src/sentry/static/sentry/app/views/settings/components/forms/projectMapperField.tsx:93-94 | for in-range bounds, `slice` is the subsequence between them; from a start at or past the end it is empty |
| JsArray.SliceFrom | src/sentry/static/sentry/app/views/settings/components/forms/projectMapperField.tsx:95 | for an in-range start, `slice(start)` is the suffix from it; past the end it is empty |
| ProjectMapperProperties.DeleteUndoesAdd | src/sentry/static/sentry/app/views/settings/components/forms/projectMapperField.tsx:80-99 | deleting the row Add just appended gives back the list before the Add |
| ProjectMapperProperties.DeleteInRange | src/sentry/static/sentry/app/views/settings/components/forms/projectMapperField.tsx:92-95 | for an index inside the list, Delete reports the list with exactly that element cut out |
| ProjectMapperProperties.DeleteRemovesOne | src/sentry/static/sentry/app/views/settings/components/forms/projectMapperField.tsx:92-95 | for an index in range, the reported list plus the removed element is, as a multiset, the original list |
| ProjectMapperProperties.DeleteKeepsOnlyExisting | src/sentry/static/sentry/app/views/settings/components/forms/projectMapperField.tsx:92-95 | for a non-negative index, Delete introduces no association, so the used ids and values only shrink |
| ProjectMapperProperties.DeleteAtMinusOne | src/sentry/static/sentry/app/views/settings/components/forms/projectMapperField.tsx:93-95 | at index -1 the slice arithmetic reports all but the last element followed by the whole list |
| ProjectMapperProperties.AddPreservesDistinct | src/sentry/static/sentry/app/views/settings/components/forms/projectMapperField.tsx:60-90 | adding a pair whose id and value are unused keeps project ids and mapped values distinct |
| ProjectMapperProperties.DeletePreservesDistinct | src/sentry/static/sentry/app/views/settings/components/forms/projectMapperField.tsx:92-99 | deleting at a non-negative index keeps project ids and mapped values distinct |
| ProjectMapper.RenderRow | src/sentry/static/sentry/app/views/settings/components/forms/projectMapperField.tsx:101-140 | the project cell is "Deleted" iff the id is missing from the project lookup, otherwise it shows the looked-up project; independently, the item cell is "Deleted" iff the value is missing from the item lookup, otherwise it shows that item's label and url; the delete button carries the row's index |
| ProjectMapper.RenderRows | src/sentry/static/sentry/app/views/settings/components/forms/projectMapperField.tsx:205 | one row per association, in order, row `i` rendered from association `i` with delete index `i` |
| ProjectMapperProperties.RowDeletedIff | src/sentry/static/sentry/app/views/settings/components/forms/projectMapperField.tsx:101-130 | a row shows "Deleted" for its project iff no supplied project has that id, and for its item iff no supplied item has that value |
| ProjectMapperSession.Step | src/sentry/static/sentry/app/views/settings/components/forms/projectMapperField.tsx:203-239 | a pick changes only its own slot; Add clears both slots and, when some callback is supplied, the host then holds the old list with the selected pair appended; a row delete keeps the slots and, when some callback is supplied, the host then holds the list without that row; with no callback the host's value stays as it was |
| ProjectMapperSession.InitialInvariant | src/sentry/static/sentry/app/views/settings/components/forms/projectMapperField.tsx:35-47 | an absent value, or a stored list with distinct keys, together with the initial empty selection satisfies the field invariant |
| ProjectMapperSession.StepPreservesInvariant | src/sentry/static/sentry/app/views/settings/components/forms/projectMapperField.tsx:60-99 | every action the field offers keeps the keys distinct and the selected keys unused |
| ProjectMapperSession.RunPreservesInvariant | src/sentry/static/sentry/app/views/settings/components/forms/projectMapperField.tsx:60-99 | after any run of offered actions the stored list still has no repeated project id or mapped value |
| ProjectMapperSession.PickPickAdd | src/sentry/static/sentry/app/views/settings/components/forms/projectMapperField.tsx:72-90 | picking an offered project and an offered item, both truthy, and clicking Add leaves both slots empty; the host then holds the list with that pair appended, or its old value when no callback is supplied |
| ProjectMapperSession.AddNeedsBothSelections | src/sentry/static/sentry/app/views/settings/components/forms/projectMapperField.tsx:232 | from the initial state, Add is refused with nothing selected, with only a project selected, and with only an item selected |
| ProjectMapperSession.ExampleOptions | src/sentry/static/sentry/app/views/settings/components/forms/projectMapperField.tsx:61-70 | with (1,"a"), (2,"b") stored and projects 1, 2, 3 and items "a", "b", "c" supplied, only project 3 and item "c" are offered |
| ProjectMapperSession.ExampleAdd | src/sentry/static/sentry/app/views/settings/components/forms/projectMapperField.tsx:72-90 | picking project 3 and item "c" and clicking Add stores (1,"a"), (2,"b"), (3,"c") and clears the slots |
| ProjectMapperSession.ExampleDelete | src/sentry/static/sentry/app/views/settings/components/forms/projectMapperField.tsx:92-99 | deleting row 1 of (1,"a"), (2,"b"), (3,"c") reports (1,"a"), (3,"c") |
| ProjectMapperSession.ExampleDeletedRow | src/sentry/static/sentry/app/views/settings/components/forms/projectMapperField.tsx:101-117 | a row for project id 9, which no supplied project has, shows "Deleted" for its project |

## Left out

- `eventTagsPill.tsx`, the tag pill renderer, is not part of this model. It is pure rendering. Its substance sits in helpers that are not part of this model: `isUrl`, version and device-name formatting, hover cards and query-string.
- The markup, the styled components, the custom dropdown `Option`/`ValueContainer` renderers, `getIcon` and the optional "next" button are not modelled. They are cosmetic.
- The `InputField` wrapper and what the host form does with `onChange`/`onBlur` are external. The callbacks are modelled only as the calls made, with the list and error list passed. The session model assumes the host stores every list a callback reports, and keeps its value when no callback is supplied.
- `Object.fromEntries` turns keys into strings, so a number `1` and a string `"1"` share one lookup entry, while the `Set` of used values keeps them apart. The lookups here are maps over the `MappedValue` type, which keeps the two apart as well.
- React's asynchronous `setState` batching is not modelled. Each handler is one atomic transition.
- Numbers are unbounded integers. Fractional ids, `NaN` and the infinities are not modelled.
- Delete: its contract says nothing for negative indices apart from the single case `DeleteAtMinusOne`, because the rows only ever pass indices inside the list.
- RenderRow: the item lookup is a map over `MappedValue`, not a plain JavaScript object, so two source behaviours are not reproduced. First, the object's keys are strings, so a number value such as `1` finds a supplied item whose value is the string `"1"`, and the other way round; the source then shows that item, while the model shows "Deleted". Second, a mapped value such as `"toString"`, `"constructor"`, `"valueOf"` or `"__proto__"` with no supplied item finds an inherited `Object.prototype` member; the source then shows the item branch with an undefined label and url, while the model shows "Deleted". Project ids are numbers, so the project lookup has neither issue.
- RowDeletedIff: its "the item shows Deleted iff no supplied item has that value" holds in the source except in the two cases above. One is a mapped value whose string form equals that of a supplied value of the other kind (`1` and `"1"`). The other is a mapped value that names an inherited `Object.prototype` member. In both, the source shows the item branch where the model shows "Deleted". Its project half holds in the source as stated.
