/** The component `App` of src/main.rs: its two fields, its initial state
    (`create`) and its message handler (`update`). */
module TodoApp {
  import opened TodoItems

  /** The messages that drive `update` (`Msg`). */
  datatype Msg = AddItem | DeleteItem(id: Id) | CompleteItem(id: Id) | UpdateValue(value: string)

  const FirstItemValue: string := "FIRST ITEM"

  class App {
    /** The to-do list, in insertion order. */
    var items: seq<Item>
    /** The pending text of the input field. */
    var value: string

    /** `create`: a single NEW item "FIRST ITEM" and no pending text. The
        program draws the item's id at random; here the caller supplies it. */
    constructor Create(firstId: Id)
      ensures items == [Item(firstId, FirstItemValue, NEW)]
      ensures value == ""
    {
      items := [Item(firstId, FirstItemValue, NEW)];
      value := "";
    }

    /** `update`: applies one message and reports whether to re-render.
        `freshId` stands for the random id that AddItem draws; the other
        messages ignore it. */
    method Update(msg: Msg, freshId: Id) returns (render: bool)
      modifies this
      ensures msg.UpdateValue? ==>
                items == old(items) && value == msg.value && render
      ensures msg.AddItem? && old(value) == "" ==>
                items == old(items) && value == old(value) && !render
      ensures msg.AddItem? && old(value) != "" ==>
                items == old(items) + [Item(freshId, old(value), NEW)] && value == "" && render
      ensures msg.DeleteItem? ==>
                value == old(value) && render == HasId(old(items), msg.id) &&
                items == (if render then RemoveId(old(items), msg.id) else old(items))
      ensures msg.CompleteItem? ==>
                value == old(value) && render == HasId(old(items), msg.id) &&
                items == (if render then CompleteId(old(items), msg.id) else old(items))
      // Unique ids survive every message, provided an AddItem that appends is
      // given an unused id.
      ensures UniqueIds(old(items)) &&
              (msg.AddItem? && old(value) != "" ==> !HasId(old(items), freshId)) ==>
                UniqueIds(items)
      // No message ever produces a DELETED item.
      ensures NoneDeleted(old(items)) ==> NoneDeleted(items)
    {
      match msg {
        case UpdateValue(v) =>
          value := v;
          render := true;
        case AddItem =>
          if value != "" {
            var item := Item(freshId, value, NEW);
            if UniqueIds(items) && !HasId(items, freshId) {
              UniqueIdsAppend(items, item);
            }
            items := items + [item];
            value := "";
            render := true;
          } else {
            render := false;
          }
        case DeleteItem(id) =>
          var found := HasId(items, id);
          if found {
            if UniqueIds(items) { RemoveIdKeepsUniqueIds(items, id); }
            if NoneDeleted(items) { RemoveIdKeepsNoneDeleted(items, id); }
            items := RemoveId(items, id);
            render := true;
          } else {
            render := false;
          }
        case CompleteItem(id) =>
          var found := HasId(items, id);
          if found {
            if UniqueIds(items) { CompleteIdKeepsUniqueIds(items, id); }
            if NoneDeleted(items) { CompleteIdKeepsNoneDeleted(items, id); }
            items := CompleteId(items, id);
            render := true;
          } else {
            render := false;
          }
      }
    }
  }

  /** A session from the initial state: type `text` (say "buy milk"), add
      it, complete it, then delete the first item. */
  method BuyMilkSession(firstId: Id, milkId: Id, text: string)
    returns (added: seq<Item>, completed: seq<Item>, remaining: seq<Item>, renders: seq<bool>)
    requires firstId != milkId && text != ""
    ensures added == [Item(firstId, FirstItemValue, NEW), Item(milkId, text, NEW)]
    ensures completed == [Item(firstId, FirstItemValue, NEW), Item(milkId, text, COMPLETED)]
    ensures remaining == [Item(milkId, text, COMPLETED)]
    ensures renders == [true, true, true, true]
  {
    var first, milk := Item(firstId, FirstItemValue, NEW), Item(milkId, text, NEW);
    var done := Item(milkId, text, COMPLETED);
    var app := new App.Create(firstId);
    var r0 := app.Update(UpdateValue(text), milkId);
    var r1 := app.Update(AddItem, milkId);
    added := app.items;
    assert added == [first, milk];
    TwoItems(first, milk, milkId);
    var r2 := app.Update(CompleteItem(milkId), milkId);
    completed := app.items;
    assert completed == [first, done];
    TwoItems(first, done, firstId);
    var r3 := app.Update(DeleteItem(firstId), milkId);
    remaining := app.items;
    renders := [r0, r1, r2, r3];
  }

  /** The same session when the random id drawn for the new item equals
      the first item's id: completing and deleting act on BOTH items,
      because the map and the filter touch every item with the id. */
  method CollidingIdsSession(id: Id, text: string)
    returns (completed: seq<Item>, remaining: seq<Item>, renders: seq<bool>)
    requires text != ""
    ensures completed == [Item(id, FirstItemValue, COMPLETED), Item(id, text, COMPLETED)]
    ensures remaining == []
    ensures renders == [true, true, true, true]
  {
    var first, second := Item(id, FirstItemValue, NEW), Item(id, text, NEW);
    var app := new App.Create(id);
    var r0 := app.Update(UpdateValue(text), id);
    var r1 := app.Update(AddItem, id);
    assert app.items == [first, second];
    TwoItems(first, second, id);
    var r2 := app.Update(CompleteItem(id), id);
    completed := app.items;
    TwoItems(completed[0], completed[1], id);
    var r3 := app.Update(DeleteItem(id), id);
    remaining := app.items;
    renders := [r0, r1, r2, r3];
  }
}
