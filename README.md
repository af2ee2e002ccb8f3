# Recipe book controller

A model of the controller behind a two-screen recipe book (a welcome screen and
the main screen): the `App` component of `App.js` keeps an ordered list of
recipes (`id`, `title`, `ingredients`, `preparation`), a draft of three strings,
an optional editing target, a screen and a view mode, and mirrors the list into
local storage after every change. The project has three modules:

- `Wrappers`: the `Option` type, standing for JavaScript's `null`/`undefined`.
- `RecipeList`: the `Recipe` record and the pure list transforms the handlers
  compute. `ReplaceById` is `recipes.map` on edit, `RemoveById` is
  `recipes.filter` on delete, `Find` is `recipes.find`, and `SubmitList`
  chooses between the edit map and the append. It also holds the lemmas about
  them: order preserved; at most one entry removed or replaced when ids are
  distinct, exactly entry k when entry k carries the id and none when no entry
  does; ids kept distinct.
- `RecipeBook`: the class `App`. Its fields are the component's state. It has
  one method per handler, and each method's `ensures` gives the new state as a
  function of the old. Two client methods, `CreateThenRestart` and
  `StaleEditTarget`, run the handlers in sequence and state what results.

Each handler is one atomic, synchronous state update. The fields are:

- `screen`: `currentScreen`, either `'home'` or `'app'`.
- `view`: either `'lista'` or `'formulario'`.
- `recipes`.
- `title`, `ingredients`, `preparation`.
- `editingId`: `editingRecipeId`.
- `store`: the value under the `'recipes'` key of local storage. It is `None`
  when the key is absent, holds the empty string, or does not parse.

The constructor takes the store's contents at start-up. `Load` reads the store,
and `Save` overwrites it.

External effects become parameters:

- `Date.now().toString()` is the string parameter `now` of `Submit`.
- `window.confirm` is the boolean `confirmed` of `Delete`.

The model follows the code as written; in particular:

- On edit, the replacement record is the newly built record. It carries the
  newly generated id, not the edited entry's id. The entry keeps its position
  but not its identity.
- A non-matching editing target leaves the list as it was. Submit still saves
  the list and still clears the draft and the target.
- Cancel and "add new" change only the view. The draft and a stale editing
  target survive, so a later submit from "add new" replaces the previously
  edited entry (`StaleEditTarget`).
- The editing target is tested for truthiness. A target equal to the empty
  string takes the append branch.
- The presence check on the draft is `!s`, so only the empty string fails it.
  Whitespace passes.
- The `filter` at App.js:77 drops every entry with the given id. With distinct
  ids this is at most one entry: exactly entry k when entry k carries the id
  (`RemoveByIdUnique` with `DistinctOnlyAt`), and none when no entry does
  (`RemoveByIdAbsent`).
- Load replaces the list only when the store holds a value. Otherwise the list
  stays as it was, which is empty at start-up.

## Model

| member | source | states |
|---|---|---|
| RecipeList.DraftComplete | App.js:47 | definition, no contract of its own: false exactly when one of the three strings is `''` (JavaScript's `!s` on a string); `Submit`'s ensures are stated through it |
| RecipeList.IsEditing | App.js:58 | definition, no contract of its own: false exactly for `null` and `''` (JavaScript truthiness); `SubmitList`'s ensures are stated through it |
| RecipeList.FalsyTargetAppends | App.js:58-62 | a `null` or empty-string editing target makes a submit append the new record |
| RecipeList.TruthyTargetEdits | App.js:58-61 | a non-empty editing target makes a submit run the edit map, which leaves the list unchanged when no entry has that id |
| RecipeList.ReplaceById | App.js:58-61 | same length; every entry whose id is the target becomes the replacement and every other entry is untouched; with no match the list is unchanged |
| RecipeList.RemoveById | App.js:77 | no entry with the deleted id remains, and the list does not grow |
| RecipeList.RemoveByIdCounts | App.js:77 | each record with the deleted id has no copies left, and every other record keeps its number of occurrences |
| RecipeList.Find | App.js:84 | `None` exactly when no entry has the id; otherwise an entry of the list carrying that id |
| RecipeList.SubmitList | App.js:58-62 | edit mode: same length, entries with the target id become the new record and the rest are unchanged; create mode: the old list with the new record appended as the last entry |
| RecipeList.RemoveByIdAppend | App.js:77 | filtering distributes over concatenation, so the surviving entries keep their relative order |
| RecipeList.RemoveByIdAbsent | App.js:77 | deleting an id no entry has leaves the list unchanged |
| RecipeList.RemoveByIdUnique | App.js:76-78 | when entry k alone carries its id (as with distinct ids), deleting that id yields the list without entry k, the others in order |
| RecipeList.RemoveByIdKeepsDistinct | App.js:77 | deleting keeps the ids distinct |
| RecipeList.FindFirst | App.js:84 | the lookup returns the entry at the first position whose id matches |
| RecipeList.FindDistinct | App.js:84 | with distinct ids, looking up entry k's id returns entry k |
| RecipeList.ReplaceByIdUnique | App.js:58-61 | when entry k alone carries its id (as with distinct ids), editing that id replaces exactly entry k, in place |
| RecipeList.ReplaceByIdKeepsDistinct | App.js:52-61 | a replacement whose id is not yet in the list keeps the ids distinct |
| RecipeList.SubmitKeepsDistinct | App.js:51-62 | if the generated id is not yet in the list, both the create and the edit mode keep the ids distinct |
| RecipeBook.App.constructor | App.js:14-20 | the initial state: home screen, list view, empty list, empty draft, no editing target; the store as found |
| RecipeBook.App.Load | App.js:23-35 | the list becomes the stored list when one is present and is otherwise left as it was; nothing else changes |
| RecipeBook.App.Save | App.js:38-44 | the store holds exactly the given list; nothing else changes |
| RecipeBook.App.Submit | App.js:46-71 | an incomplete draft changes nothing; otherwise the list becomes `SubmitList` of the old list, target and new record, the store equals the list, the draft is empty, the target is cleared and the view is the list; distinct ids stay distinct when the generated id is new |
| RecipeBook.App.Delete | App.js:73-81 | confirmed: the list loses the entries with that id and the store equals the result; declined: neither list nor store changes; distinct ids stay distinct |
| RecipeBook.App.BeginEdit | App.js:83-92 | with a match, the draft becomes the first match's three fields, the target becomes the id and the view the form; with none, nothing changes |
| RecipeBook.App.Enter | App.js:101 | only the screen changes, to the main screen |
| RecipeBook.App.AddNew | App.js:111 | only the view changes, to the form; draft and target survive |
| RecipeBook.App.Cancel | App.js:156 | only the view changes, to the list; draft and target survive |
| RecipeBook.App.SetTitle | App.js:137 | only the title changes, to the typed text |
| RecipeBook.App.SetIngredients | App.js:143 | only the ingredients change, to the typed text |
| RecipeBook.App.SetPreparation | App.js:150 | only the preparation changes, to the typed text |
| RecipeBook.CreateThenRestart | App.js:23-71 | after creating a recipe, a restarted component loads the list it started from (empty when the store held nothing) with the new recipe appended; it is there exactly once and the ids stay distinct |
| RecipeBook.StaleEditTarget | App.js:58-62 | after edit, cancel and "add new", a submit replaces the previously edited entry in place (with the new id) rather than adding a recipe |

## Left out

- Rendering, JSX and the style sheet (App.js:94-287) are presentation. The
  rendered list has no delete or edit buttons, but the handlers are still
  modelled as operations.
- `localStorage`, `JSON.stringify` and `JSON.parse` are library and I/O calls.
  The store holds the list itself. An absent key, an empty string and a value
  that fails to parse are all `None`. The model assumes that parsing a written
  value gives back the written list. A stored value that parses to something
  other than a list of recipes is not modelled.
- `console.error` logging and failed writes (App.js:30-32, 41-43) are left out.
  `Save` always succeeds, so the model does not capture a store that falls
  behind the in-memory list after a failed write.
- React's scheduling of `useState` and `useEffect` is not modelled. Each handler
  is one atomic update, and `Load` is a method the client calls once after
  construction.
- `Date.now()` and `window.confirm` are external effects and are taken as
  parameters. The model does not assume that the generated id is fresh.
  Properties that need a fresh id take it as a hypothesis.
