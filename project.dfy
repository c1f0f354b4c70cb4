/**
 * The loaded MSBuild project the conversion edits in place, and the console
 * host it reports errors to.
 */
module MsBuild {
  import opened ProjectItems

  /** An identity greater than every identity in use. */
  function NextFreeId(items: seq<Item>): (r: nat)
    ensures IdsBelow(items, r)
    decreases |items|
  {
    if items == [] then 0
    else
      var rest := NextFreeId(items[1..]);
      if items[0].id < rest then rest else items[0].id + 1
  }

  /**
   * A loaded project: its item list in evaluation order, the identity the
   * next added item gets, the item list as last written to disk, and how many
   * times it was written.
   */
  class Project {
    var items: seq<Item>
    var nextId: nat
    var saved: seq<Item>
    var saveCount: nat

    /** Every item is a distinct object, older than any item still to be added. */
    ghost predicate Valid()
      reads this
    {
      UniqueIds(items) && IdsBelow(items, nextId)
    }

    /** `ProjectExtensions.LoadProject`: the file's items, with nothing changed or written yet. */
    constructor Load(loaded: seq<Item>)
      requires UniqueIds(loaded)
      ensures Valid()
      ensures items == loaded && saved == loaded && saveCount == 0
    {
      items := loaded;
      nextId := NextFreeId(loaded);
      saved := loaded;
      saveCount := 0;
    }

    /** `Project.AddItem`: a new item object at the end of the item list. */
    method AddItem(itemType: string, unevaluatedInclude: string, metadata: seq<Metadata>) returns (added: Item)
      requires Valid()
      modifies this`items, this`nextId
      ensures Valid()
      ensures added == Item(old(nextId), itemType, unevaluatedInclude, metadata)
      ensures items == old(items) + [added] && nextId == old(nextId) + 1
    {
      added := Item(nextId, itemType, unevaluatedInclude, metadata);
      items := items + [added];
      nextId := nextId + 1;
    }

    /** `Project.RemoveItem`: the item object leaves the list; the result says whether it was there. */
    method RemoveItem(item: Item) returns (removed: bool)
      requires Valid()
      modifies this`items
      ensures Valid()
      ensures removed <==> exists x <- old(items) :: x.id == item.id
      ensures items == Without(old(items), item.id)
    {
      removed := exists x <- items :: x.id == item.id;
      WithoutKeepsUniqueIds(items, item.id);
      items := Without(items, item.id);
    }

    /** `ProjectExtensions.SaveWithLineEndings`: the current items are written out. */
    method Save()
      modifies this`saved, this`saveCount
      ensures saved == items && saveCount == old(saveCount) + 1
    {
      saved := items;
      saveCount := saveCount + 1;
    }
  }

  /** The console host: the error lines written so far. */
  class ConsoleHost {
    var errors: seq<string>

    constructor ()
      ensures errors == []
    {
      errors := [];
    }

    /** `IConsoleHost.WriteError`. */
    method WriteError(message: string)
      modifies this
      ensures errors == old(errors) + [message]
    {
      errors := errors + [message];
    }
  }
}
