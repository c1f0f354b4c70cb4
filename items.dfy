/** The items of an MSBuild project as the conversion sees them. */
module ProjectItems {
  import opened Sequences

  /** One direct metadata entry of an item, such as a `HintPath` pointing at a dll. */
  datatype Metadata = Metadata(name: string, evaluatedValue: string)

  /**
   * A project item: its item type (`Reference`, `PackageReference`, ...), its
   * evaluated include and its direct metadata in declaration order. `id` stands
   * for the identity of the item object: two items with the same type, include
   * and metadata are still two items, and removing one leaves the other.
   */
  datatype Item = Item(id: nat, itemType: string, evaluatedInclude: string, directMetadata: seq<Metadata>)

  const ReferenceType := "Reference"
  const PackageReferenceType := "PackageReference"
  const VersionKey := "Version"

  /** No two items of the list are the same object. */
  ghost predicate UniqueIds(items: seq<Item>) {
    forall i, j :: 0 <= i < j < |items| ==> items[i].id != items[j].id
  }

  /** Every item of the list was created before identity `bound` was handed out. */
  ghost predicate IdsBelow(items: seq<Item>, bound: nat) {
    forall x <- items :: x.id < bound
  }

  /** The item list after the item object with identity `id` is removed from it. */
  function Without(items: seq<Item>, id: nat): (r: seq<Item>)
    ensures forall x <- r :: x in items && x.id != id
    ensures forall x <- items :: x.id != id ==> x in r
    ensures IsSubsequence(r, items)
  {
    WhereIsSubsequence(items, (x: Item) => x.id != id);
    Where(items, (x: Item) => x.id != id)
  }

  /** Removing an item keeps the others distinct objects. */
  lemma {:induction false} WithoutKeepsUniqueIds(items: seq<Item>, id: nat)
    requires UniqueIds(items)
    ensures UniqueIds(Without(items, id))
    decreases |items|
  {
    if items != [] {
      var rest := items[1..];
      UniqueIdsTail(items);
      WithoutKeepsUniqueIds(rest, id);
      if items[0].id != id {
        var r := Without(items, id);
        assert r == [items[0]] + Without(rest, id);
        forall i, j | 0 <= i < j < |r| ensures r[i].id != r[j].id {
          if i == 0 {
            assert r[j] in Without(rest, id);
            var k :| 0 <= k < |rest| && rest[k] == r[j];
            assert items[k + 1] == r[j];
          } else {
            assert r[i] == Without(rest, id)[i - 1] && r[j] == Without(rest, id)[j - 1];
          }
        }
      } else {
        assert Without(items, id) == Without(rest, id);
      }
    }
  }

  /** Removing an item that is not in the list leaves the list as it was. */
  lemma WithoutAbsent(items: seq<Item>, id: nat)
    requires forall x <- items :: x.id != id
    ensures Without(items, id) == items
  {
    WhereKeepsAll(items, (x: Item) => x.id != id);
  }

  /** The tail of a list of distinct objects is one too, and does not hold the head. */
  lemma UniqueIdsTail(items: seq<Item>)
    requires UniqueIds(items) && items != []
    ensures UniqueIds(items[1..])
    ensures forall x <- items[1..] :: x.id != items[0].id
  {
    var rest := items[1..];
    forall i, j | 0 <= i < j < |rest| ensures rest[i].id != rest[j].id {
      assert rest[i] == items[i + 1] && rest[j] == items[j + 1];
    }
    forall x | x in rest ensures x.id != items[0].id {
      var k :| 0 <= k < |rest| && rest[k] == x;
      assert items[k + 1] == x;
    }
  }

  /** Deleting items from a list of distinct objects leaves distinct objects, all from the list. */
  lemma {:induction false} SubsequenceKeepsUniqueIds(r: seq<Item>, s: seq<Item>)
    requires IsSubsequence(r, s) && UniqueIds(s)
    ensures UniqueIds(r)
    ensures forall x <- r :: x in s
    decreases |s|
  {
    if s != [] {
      UniqueIdsTail(s);
      if r != [] && r[0] == s[0] && IsSubsequence(r[1..], s[1..]) {
        SubsequenceKeepsUniqueIds(r[1..], s[1..]);
        forall i, j | 0 <= i < j < |r| ensures r[i].id != r[j].id {
          assert r[j] == r[1..][j - 1];
          if i > 0 {
            assert r[i] == r[1..][i - 1];
          }
        }
        forall x | x in r ensures x in s {
          var k :| 0 <= k < |r| && r[k] == x;
          if k > 0 {
            assert x == r[1..][k - 1] && x in s[1..];
          } else {
            assert s[0] in s;
          }
        }
      } else {
        SubsequenceKeepsUniqueIds(r, s[1..]);
      }
    }
  }

  /** Removing an item that is in a list of distinct objects removes exactly one element. */
  lemma {:induction false} WithoutLength(items: seq<Item>, id: nat)
    requires UniqueIds(items)
    requires exists x <- items :: x.id == id
    ensures |Without(items, id)| == |items| - 1
    decreases |items|
  {
    var rest := items[1..];
    UniqueIdsTail(items);
    if items[0].id == id {
      assert Without(items, id) == Without(rest, id);
      WithoutAbsent(rest, id);
    } else {
      assert Without(items, id) == [items[0]] + Without(rest, id);
      assert exists x <- rest :: x.id == id by {
        var x :| x in items && x.id == id;
        assert x != items[0];
      }
      WithoutLength(rest, id);
    }
  }
}
