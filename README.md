# rust_todos: the to-do list state machine in Dafny

The program is a browser to-do list written with the Yew framework. Its whole
state lives in the `App` component: a list of items (`items`) and the pending
text of the input field (`value`). Each item has an id, a text and a
lifecycle state (NEW, COMPLETED, DELETED). Four messages drive `App::update`:

- `UpdateValue(v)` overwrites the pending text.
- `AddItem` appends a NEW item carrying the pending text, unless that text is empty.
- `DeleteItem(id)` filters out the items with that id, if there are any.
- `CompleteItem(id)` maps the items with that id to COMPLETED, if there are any.

Each message returns whether the view must be re-rendered.

The model has two modules:

- `TodoItems` (`items.dfy`) holds the item datatypes. It also holds the three
  list computations of `update` as recursive functions: the existence test
  `iter().find(..).is_some()` (`Find`, `HasId`), the delete arm's `filter`
  (`RemoveId`) and the complete arm's `map` (`CompleteId`). The lemmas about
  them sit beside them.
- `TodoApp` (`app.dfy`) holds the `Msg` datatype and the class `App`. The
  class has the two fields as `seq<Item>` and `string`, the constructor
  `Create` for `App::create`, and the method `Update` for `App::update`.
  `Update` assigns the fields the way the source does and returns the
  re-render flag. Two client methods chain `Update`'s contracts over whole
  sessions; they are verified, not executed.

Ids are random in the program, so nothing makes them unique. The model never
assumes uniqueness. Delete and complete are specified over every item that
carries the id. `UniqueIds` is a property that the operations are proved to
preserve; an `AddItem` with non-empty text preserves it when its fresh id is
unused.

Three facts about the code shape the model:

- Item ids come from `rand::thread_rng().gen()` and are never checked for a
  clash with existing ids.
- Delete filters out every item with the id. `RemoveIdUnique` proves that
  this removes exactly one item when ids are unique, and
  `CollidingIdsSession` shows that both items go when two ids clash.
- `DELETED` is declared but never produced: deletion removes the item from
  the list, and `NoneDeleted` is preserved by every message.

## Model

| member | source | states |
|---|---|---|
| TodoItems.Find | src/main.rs:139 | `find` with `item.id == id`: None exactly when no item has the id; otherwise it returns an item of the list that has the id |
| TodoItems.HasId | src/main.rs:139 | the `exists` flag of the delete and complete arms (also src/main.rs:150) holds exactly when some item of the list has the id |
| TodoItems.FindIsFirst | src/main.rs:139 | the item `find` returns is the first one with the id: no earlier item has it |
| TodoItems.CountZero | src/main.rs:139-141 | no item is counted with the id exactly when the `exists` test is false |
| TodoItems.RemoveId | src/main.rs:143 | the delete arm's `filter`, which keeps the items whose id differs; its own contract says only that the list does not grow, and it is pinned down by `RemoveIdCharacterized`, `RemoveIdIsSubsequence`, `RemoveIdMembers` and `RemoveIdLength` |
| TodoItems.RemoveIdLength | src/main.rs:139-147 | the filter removes exactly as many items as carry the id, so the list gets shorter exactly when an item with the id exists |
| TodoItems.RemoveIdMembers | src/main.rs:143 | an item survives the filter exactly when it was in the list and its id differs from the deleted id |
| TodoItems.RemoveIdIsSubsequence | src/main.rs:143 | the surviving items keep their relative order (the result is a subsequence of the old list) |
| TodoItems.RemoveIdCharacterized | src/main.rs:143 | the filter is the only order-preserving subsequence that avoids the id and drops no other item, so it is determined independently of its recursive definition |
| TodoItems.RemoveIdAbsent | src/main.rs:143 | when no item carries the id, the filter returns the list unchanged |
| TodoItems.RemoveIdAppend | src/main.rs:143 | the filter distributes over concatenation: it filters each part in place and never reorders across parts |
| TodoItems.RemoveIdUnique | src/main.rs:139-144 | with unique ids, deleting the id of the item at position k yields the list without exactly that one item |
| TodoItems.RemoveIdKeepsUniqueIds | src/main.rs:143 | the filter keeps ids unique |
| TodoItems.RemoveIdKeepsNoneDeleted | src/main.rs:143 | the filter never yields an item in state DELETED when there was none |
| TodoItems.UniqueIdsAppend | src/main.rs:127-131 | pushing an item whose id is unused keeps ids unique |
| TodoItems.CompleteOne | src/main.rs:156-166 | the closure of the complete map: the result keeps the item's id and value, and its state is COMPLETED when the id matches and unchanged otherwise |
| TodoItems.CompleteId | src/main.rs:154-167 | the map keeps the length and every item's id and value; items with the id get state COMPLETED and every other item keeps its state; with no such item the list is unchanged |
| TodoItems.CompleteIdIdempotent | src/main.rs:154-167 | completing the same id twice gives the same list as completing it once |
| TodoItems.CompleteIdKeepsIds | src/main.rs:150-167 | after completing, every id exists exactly when it existed before, so a second completion of the same id still re-renders |
| TodoItems.CompleteIdKeepsUniqueIds | src/main.rs:154-167 | the map keeps ids unique |
| TodoItems.CompleteIdKeepsNoneDeleted | src/main.rs:154-167 | the map never produces a DELETED item |
| TodoApp.App.Create | src/main.rs:75-84 | the initial state is exactly one NEW item "FIRST ITEM", with the supplied id, and empty pending text |
| TodoApp.App.Update | src/main.rs:117-175 | UpdateValue sets the text, keeps the items and re-renders. AddItem with empty text changes nothing and does not re-render. AddItem with text appends one NEW item with that text and the fresh id after the unchanged old items, clears the text and re-renders. DeleteItem and CompleteItem keep the text, re-render exactly when the id exists, and then replace the list by the filter or the map; otherwise the list is unchanged. Unique ids (given an unused fresh id when AddItem appends) and the absence of DELETED items are preserved |
| TodoApp.BuyMilkSession | src/main.rs:75-175 | from the initial state, typing a text, adding, completing the new item and deleting the first item (distinct ids) yields [first NEW, text NEW], then [first NEW, text COMPLETED], then [text COMPLETED], and every call re-renders |
| TodoApp.CollidingIdsSession | src/main.rs:139-171 | when the new item draws the first item's id, completing that id completes both items and deleting it empties the list |

## Left out

- `view`, the `Item` function component and `ItemProps` (src/main.rs:21-56, 88-115) are HTML rendering and callback wiring, so they are not modelled.
- The `"{:?}: "` state label is Debug display text for the view and is not modelled.
- `log::info!` calls are a logging side effect with no bearing on the state, so they are left out.
- `rand::thread_rng().gen()` is a foreign random source. It becomes the caller-supplied `firstId` of `Create` and `freshId` of `Update`; the other messages ignore `freshId`.
- The `HtmlInputElement` / `InputEvent` extraction is DOM interop. Its result arrives as the text of `UpdateValue`.
- The lifecycle hooks `rendered`, `changed` and `destroy`, and `main` with its wasm start-up, are framework plumbing and are not modelled.
- The `_ => false` arm of `update` cannot be reached because the match is exhaustive. The Dafny `match` has no such arm.
- The `clone()` of the list before `into_iter()` has no observable effect on the state. The model replaces the field by the new sequence.
- Ids are `usize`, which is 32 bits on the wasm32 target. The model bounds them to that range; only equality is ever used on them.
- Runs of several messages are not modelled as one operation. Each call's contract composes, as the two session methods show.
