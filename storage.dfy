/**
 * The storage module as a stateful object: the persisted JSON document is a
 * field, `_load_all` reads it and `_save_all` overwrites it. Every operation
 * loads the whole catalog, checks its guard, changes the loaded catalog and,
 * on success only, writes the whole catalog back exactly once.
 */
module Storage {
  import opened Wrappers
  import opened OrderedDict
  import opened Engine

  /** The backing file as `_load_all` finds it. */
  datatype Document = Missing | Corrupt | Parsed(catalog: Catalog)

  class MediaStore {
    /** The contents of the data file. */
    var document: Document
    /** How many times the whole catalog has been written back. */
    ghost var saves: nat

    ghost predicate Valid()
      reads this
    {
      document.Parsed? ==> OrderedDict.Valid(document.catalog)
    }

    constructor (initial: Document)
      requires initial.Parsed? ==> OrderedDict.Valid(initial.catalog)
      ensures Valid() && document == initial && saves == 0
    {
      document := initial;
      saves := 0;
    }

    /** `_load_all()`: a file that is missing or does not parse reads as the empty catalog. */
    function LoadAll(): (c: Catalog)
      reads this
      requires Valid()
      ensures OrderedDict.Valid(c)
      ensures document.Parsed? ==> c == document.catalog
      ensures !document.Parsed? ==> c.entries == map[] && Values(c) == []
    {
      match document
      case Parsed(c) => c
      case _ => Empty()
    }

    /** `_save_all(data)`: the file now holds exactly `data`. */
    method SaveAll(data: Catalog)
      requires OrderedDict.Valid(data)
      modifies this
      ensures Valid() && document == Parsed(data) && LoadAll() == data
      ensures saves == old(saves) + 1
    {
      document := Parsed(data);
      saves := saves + 1;
    }

    /** `list_all()` */
    method ListAll() returns (r: seq<Item>)
      requires Valid()
      ensures r == Values(LoadAll())
      ensures |r| == |LoadAll().keys|
      ensures forall i :: 0 <= i < |r| ==> r[i] == LoadAll().entries[LoadAll().keys[i]]
    {
      r := Values(LoadAll());
    }

    /** `list_by_category(category)` */
    method ListByCategory(category: string) returns (r: seq<Item>)
      requires Valid()
      ensures r == Engine.ListByCategory(LoadAll(), category)
      ensures forall x :: x in r <==> x in Values(LoadAll()) && Lower(CategoryOf(x)) == Lower(category)
    {
      r := Engine.ListByCategory(LoadAll(), category);
    }

    /** `find_by_name_exact(name)` */
    method FindByNameExact(name: string) returns (r: Option<Item>)
      requires Valid()
      ensures r.Some? <==> name in LoadAll().entries
      ensures r.Some? ==> r.value == LoadAll().entries[name]
    {
      r := Get(LoadAll(), name);
    }

    /** `get_metadata(name)`: the same answer as `find_by_name_exact(name)`. */
    method GetMetadata(name: string) returns (r: Option<Item>)
      requires Valid()
      ensures r == Get(LoadAll(), name)
    {
      r := FindByNameExact(name);
    }

    /** `get_borrowed_items()` */
    method GetBorrowedItems() returns (r: seq<Item>)
      requires Valid()
      ensures r == BorrowedItems(LoadAll())
      ensures forall x :: x in r <==> x in Values(LoadAll()) && !IsAvailable(x)
    {
      r := BorrowedItems(LoadAll());
    }

    /**
     * `create_media(media)`. `stored` is the caller's dict afterwards: on success
     * the operation has written the lending fields into it.
     */
    method CreateMedia(media: Item) returns (ok: bool, stored: Item)
      requires Valid()
      modifies this
      ensures Valid()
      ensures ok <==> media.name.Some? && media.name.value != "" && media.name.value !in old(LoadAll()).entries
      ensures ok ==> document == Parsed(Create(old(LoadAll()), media).catalog) && saves == old(saves) + 1
      ensures !ok ==> document == old(document) && saves == old(saves)
      ensures stored == if ok then Cleared(media) else media
    {
      var data := LoadAll();
      var name := media.name;
      if name.None? || name.value == "" || name.value in data.entries {
        return false, media;
      }
      stored := media.(available := Some(true), borrowedBy := None, borrowDate := None);
      data := Set(data, name.value, stored);
      SaveAll(data);
      ok := true;
    }

    /** `delete_media(name)` */
    method DeleteMedia(name: string) returns (ok: bool)
      requires Valid()
      modifies this
      ensures Valid()
      ensures ok <==> name in old(LoadAll()).entries
      ensures ok ==> document == Parsed(Remove(old(LoadAll()), name).catalog) && saves == old(saves) + 1
      ensures ok ==> name !in LoadAll().entries
      ensures !ok ==> document == old(document) && saves == old(saves)
    {
      var data := LoadAll();
      if name in data.entries {
        data := Delete(data, name);
        SaveAll(data);
        return true;
      }
      return false;
    }

    /** `borrow_media(name, borrower)`; `now` is the formatted wall-clock time. */
    method BorrowMedia(name: string, borrower: string, now: string) returns (ok: bool)
      requires Valid()
      modifies this
      ensures Valid()
      ensures ok <==> name in old(LoadAll()).entries && IsAvailable(old(LoadAll()).entries[name])
      ensures ok ==> document == Parsed(Borrow(old(LoadAll()), name, borrower, now).catalog) && saves == old(saves) + 1
      ensures ok ==> var it := LoadAll().entries[name];
        !IsAvailable(it) && it.borrowedBy == Some(borrower) && it.borrowDate == Some(now)
      ensures !ok ==> document == old(document) && saves == old(saves)
    {
      var data := LoadAll();
      if name !in data.entries {
        return false;
      }
      var item := data.entries[name];
      if !IsAvailable(item) {
        return false;
      }
      item := item.(available := Some(false), borrowedBy := Some(borrower), borrowDate := Some(now));
      data := Set(data, name, item);
      SaveAll(data);
      ok := true;
    }

    /** `return_media(name)` */
    method ReturnMedia(name: string) returns (ok: bool)
      requires Valid()
      modifies this
      ensures Valid()
      ensures ok <==> name in old(LoadAll()).entries && !IsAvailable(old(LoadAll()).entries[name])
      ensures ok ==> document == Parsed(Return(old(LoadAll()), name).catalog) && saves == old(saves) + 1
      ensures ok ==> var it := LoadAll().entries[name];
        IsAvailable(it) && it.borrowedBy == None && it.borrowDate == None
      ensures !ok ==> document == old(document) && saves == old(saves)
    {
      var data := LoadAll();
      if name !in data.entries {
        return false;
      }
      var item := data.entries[name];
      if IsAvailable(item) {
        return false;
      }
      item := item.(available := Some(true), borrowedBy := None, borrowDate := None);
      data := Set(data, name, item);
      SaveAll(data);
      ok := true;
    }
  }

  /** On a fresh store: create a record, find it by name, and list it by category in another case. */
  method CatalogScenario()
  {
    var store := new MediaStore(Missing);
    var dune := Item(Some("Dune"), Some("1965"), Some("Herbert"), Some("Book"), None, None, None);
    var ok, stored := store.CreateMedia(dune);
    assert ok && stored.available == Some(true);
    var found := store.FindByNameExact("Dune");
    assert found == Some(stored);
    var books := store.ListByCategory("book");
    assert Lower("Book") == Lower("book");
    assert stored in books;
    ok, stored := store.CreateMedia(dune);
    assert !ok;
  }

  /** On a store holding one record: borrow it twice, return it twice, delete it twice. */
  method LendingScenario()
  {
    var dune := Item(Some("Dune"), Some("1965"), Some("Herbert"), Some("Book"), None, None, None);
    var store := new MediaStore(Parsed(Set(Empty(), "Dune", dune)));
    var ok := store.BorrowMedia("Dune", "Alice", "2024-01-01 10:00:00");
    assert ok;
    ok := store.BorrowMedia("Dune", "Bob", "2024-01-01 11:00:00");
    assert !ok;
    var found := store.GetMetadata("Dune");
    assert found.Some? && found.value.borrowedBy == Some("Alice");

    ok := store.ReturnMedia("Dune");
    assert ok;
    ok := store.ReturnMedia("Dune");
    assert !ok;

    ok := store.DeleteMedia("Dune");
    assert ok;
    found := store.FindByNameExact("Dune");
    assert found == None;
    ok := store.DeleteMedia("Dune");
    assert !ok;
  }
}
