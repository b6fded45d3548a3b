/**
 * The running application: the dictionary `items` that the main screen's handlers
 * change in place, and the contents of `items.json`, which is rewritten after every
 * change that succeeds. Each handler receives the text of the input fields it reads.
 */
module App {
  import opened Wrappers
  import opened Text
  import opened OrderedDict
  import opened Inventory

  class ItemApp {
    /** `self.items`: item name to quantity, in insertion order. */
    var items: Items
    /** What `items.json` holds: `None` while the file does not exist. */
    var disk: Option<Items>

    /** Keys are unique, and the file mirrors the store exactly, except before the
        first save of a session that started without a file, when both are empty. */
    ghost predicate Valid()
      reads this
    {
      UniqueKeys(items) && (disk == Some(items) || (disk == None && items == []))
    }

    /** `build` and `load_items`: the store is what the file holds, or empty when
        there is no file. The file's contents come as `json.load` returns them, a
        dictionary, so their keys are unique. */
    constructor Build(file: Option<Items>)
      requires file.Some? ==> UniqueKeys(file.value)
      ensures Valid() && disk == file
      ensures items == if file.Some? then file.value else []
    {
      disk := file;
      items := if file.Some? then file.value else [];
    }

    /** `save_items`: overwrite the whole file with the current store. */
    method SaveItems()
      modifies this`disk
      ensures disk == Some(items)
    {
      disk := Some(items);
    }

    /** `add_item` */
    method AddItem(name: string, text: string)
      requires Valid()
      modifies this
      ensures Valid()
      ensures items == Add(old(items), name, text)
      ensures disk == if ValidInput(name, text) then Some(items) else old(disk)
    {
      if name != "" && AllDigits(text) {
        if Has(items, name) {
          items := Put(items, name, Get(items, name) + ParseNat(text));
        } else {
          items := Put(items, name, ParseNat(text));
        }
        SaveItems();
      }
    }

    /** `remove_item` */
    method RemoveItem(name: string)
      requires Valid()
      modifies this
      ensures Valid()
      ensures items == Remove(old(items), name)
      ensures disk == if Has(old(items), name) then Some(items) else old(disk)
    {
      if Has(items, name) {
        items := Delete(items, name);
        SaveItems();
      }
    }

    /** `update_item_quantity`; the outcome stands for its two console diagnostics. */
    method UpdateItemQuantity(name: string, text: string) returns (o: UpdateOutcome)
      requires Valid()
      modifies this
      ensures Valid()
      ensures (items, o) == Update(old(items), name, text)
      ensures disk == if o == Updated then Some(items) else old(disk)
    {
      if name != "" && AllDigits(text) {
        if Has(items, name) {
          items := Put(items, name, ParseNat(text));
          SaveItems();
          o := Updated;
        } else {
          o := NoSuchItem;
        }
      } else {
        o := InvalidInput;
      }
    }

    /** `search_item`: scan the entries in insertion order and stop at the first
        whose lower-cased name contains the stripped, lower-cased term. */
    method SearchItem(text: string) returns (o: SearchOutcome)
      ensures o == Search(items, text)
    {
      var term := ToLower(Strip(text));
      if term == "" {
        return PleaseEnter;
      }
      var i := 0;
      while i < |items|
        invariant 0 <= i <= |items|
        invariant forall j :: 0 <= j < i ==> !Matches(items[j], term)
      {
        if Matches(items[i], term) {
          SearchFindsFirst(items, text, i);
          return Found(items[i].name, items[i].qty);
        }
        i := i + 1;
      }
      SearchNotFound(items, text);
      return NotFound;
    }
  }

  /** Adding twice under one name accumulates, and each add is saved. */
  method SessionAddTwice()
  {
    var app := new ItemApp.Build(None);
    app.AddItem("X", "3");
    app.AddItem("X", "4");
    AddThreeThenFour();
    assert app.items == [Entry("X", 7)] && app.disk == Some(app.items);
  }

  /** Removing twice: the second remove finds nothing and neither changes nor saves. */
  method SessionRemoveTwice(file: Items)
    requires UniqueKeys(file)
  {
    var app := new ItemApp.Build(Some(file));
    app.RemoveItem("X");
    var once := app.items;
    app.RemoveItem("X");
    assert app.items == once && !Has(app.items, "X") && app.disk == Some(once);
  }

  /** A blank search asks for a name whatever the file held. */
  method SessionBlankSearch(file: Option<Items>)
    requires file.Some? ==> UniqueKeys(file.value)
  {
    var app := new ItemApp.Build(file);
    SearchBlank(app.items, " \t ");
    var o := app.SearchItem(" \t ");
    assert o == PleaseEnter;
  }

  /** Update replaces what add accumulated. */
  method SessionAddThenUpdate()
  {
    var app := new ItemApp.Build(None);
    app.AddItem("X", "3");
    var u := app.UpdateItemQuantity("X", "10");
    AddThreeUpdateTen();
    assert app.items == [Entry("X", 10)] && app.disk == Some(app.items);
  }
}
