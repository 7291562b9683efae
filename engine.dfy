/**
 * The catalog and its lending rules, as values: the item record, the four
 * guarded transitions of the engine (create, delete, borrow, return) as
 * functions from the loaded catalog to an outcome, and the read queries.
 * `storage.dfy` runs these steps against the persisted document.
 */
module Engine {
  import opened Wrappers
  import opened OrderedDict

  /**
   * One media record as it is held in the JSON document. A field the record
   * does not carry is None; `available` keeps "absent" apart from a stored
   * boolean because absence is read as true.
   */
  datatype Item = Item(
    name: Option<string>,
    publicationDate: Option<string>,
    author: Option<string>,
    category: Option<string>,
    available: Option<bool>,
    borrowedBy: Option<string>,
    borrowDate: Option<string>)

  /** The catalog: item name to record, in insertion order. */
  type Catalog = Dict<Item>

  /** `item.get("available", True)`: only a stored `false` makes a record unavailable. */
  function IsAvailable(it: Item): (r: bool)
    ensures r <==> it.available != Some(false)
  {
    it.available.GetOr(true)
  }

  /** `item.get("category", "")`: the stored category, or "" when there is none. */
  function CategoryOf(it: Item): (r: string)
    ensures it.category.Some? ==> r == it.category.value
    ensures it.category.None? ==> r == ""
  {
    it.category.GetOr("")
  }

  function LowerChar(c: char): char {
    if 'A' <= c <= 'Z' then (c as int - 'A' as int + 'a' as int) as char else c
  }

  /**
   * `s.lower()`, for the ASCII letters: the result has the same length, no
   * upper-case ASCII letter is left, each upper-case letter becomes its
   * lower-case partner and every other character stays.
   */
  function Lower(s: string): (r: string)
    ensures |r| == |s|
    ensures forall i :: 0 <= i < |s| ==> !('A' <= r[i] <= 'Z')
    ensures forall i :: 0 <= i < |s| && 'A' <= s[i] <= 'Z' ==> r[i] as int == s[i] as int + 32
    ensures forall i :: 0 <= i < |s| && !('A' <= s[i] <= 'Z') ==> r[i] == s[i]
  {
    seq(|s|, i requires 0 <= i < |s| => LowerChar(s[i]))
  }

  /** Lower-casing a string that is already lower-cased changes nothing. */
  lemma LowerIdempotent(s: string)
    ensures Lower(Lower(s)) == Lower(s)
  {
  }

  /** The descriptive fields: everything but the lending state. */
  predicate SameDescription(a: Item, b: Item) {
    && a.name == b.name
    && a.publicationDate == b.publicationDate
    && a.author == b.author
    && a.category == b.category
  }

  /**
   * The lending invariant of one record: it is available exactly when it has
   * neither borrower nor borrow date, and a record on loan has both.
   */
  predicate Consistent(it: Item) {
    && (IsAvailable(it) <==> it.borrowedBy.None? && it.borrowDate.None?)
    && (!IsAvailable(it) ==> it.borrowedBy.Some? && it.borrowDate.Some?)
  }

  /** Every record is consistent and is stored under its own name. */
  ghost predicate Invariant(c: Catalog) {
    forall k :: k in c.entries ==> Consistent(c.entries[k]) && c.entries[k].name == Some(k)
  }

  /**
   * The lending fields of a record that is not on loan: available, with no
   * borrower and no borrow date. Create (lines 41-43) and return (lines
   * 81-83) both set them.
   */
  function Cleared(it: Item): (r: Item)
    ensures SameDescription(r, it)
    ensures r.available == Some(true) && r.borrowedBy == None && r.borrowDate == None
    ensures IsAvailable(r) && Consistent(r)
  {
    it.(available := Some(true), borrowedBy := None, borrowDate := None)
  }

  /** Lines 66-68: the record once `borrower` has taken it out at time `now`. */
  function Lent(it: Item, borrower: string, now: string): (r: Item)
    ensures SameDescription(r, it)
    ensures !IsAvailable(r) && r.borrowedBy == Some(borrower) && r.borrowDate == Some(now)
    ensures Consistent(r)
  {
    it.(available := Some(false), borrowedBy := Some(borrower), borrowDate := Some(now))
  }

  /** What a mutating operation reports, and the catalog it leaves to be saved. */
  datatype Outcome = Outcome(ok: bool, catalog: Catalog)

  /** `create_media(media)` on the loaded catalog `c`. */
  function Create(c: Catalog, media: Item): (r: Outcome)
    requires Valid(c)
    ensures Valid(r.catalog)
    ensures r.ok <==> media.name.Some? && media.name.value != "" && media.name.value !in c.entries
    ensures !r.ok ==> r.catalog == c
    ensures r.ok ==>
      var n := media.name.value;
      && Get(r.catalog, n) == Some(Cleared(media))
      && r.catalog.keys == c.keys + [n]
      && (forall k :: k != n ==> Get(r.catalog, k) == Get(c, k))
  {
    if media.name.None? || media.name.value == "" || media.name.value in c.entries then
      Outcome(false, c)
    else
      Outcome(true, Set(c, media.name.value, Cleared(media)))
  }

  /** `delete_media(name)` on the loaded catalog `c`. */
  function Remove(c: Catalog, name: string): (r: Outcome)
    requires Valid(c)
    ensures Valid(r.catalog)
    ensures r.ok <==> name in c.entries
    ensures !r.ok ==> r.catalog == c
    ensures r.ok ==>
      && name !in r.catalog.entries
      && r.catalog.keys == Without(c.keys, name)
      && (forall k :: k != name ==> Get(r.catalog, k) == Get(c, k))
  {
    if name in c.entries then Outcome(true, Delete(c, name)) else Outcome(false, c)
  }

  /** `borrow_media(name, borrower)` on the loaded catalog `c`, at time `now`. */
  function Borrow(c: Catalog, name: string, borrower: string, now: string): (r: Outcome)
    requires Valid(c)
    ensures Valid(r.catalog)
    ensures r.ok <==> name in c.entries && IsAvailable(c.entries[name])
    ensures !r.ok ==> r.catalog == c
    ensures r.ok ==>
      && Get(r.catalog, name) == Some(Lent(c.entries[name], borrower, now))
      && r.catalog.keys == c.keys
      && (forall k :: k != name ==> Get(r.catalog, k) == Get(c, k))
  {
    if name !in c.entries then Outcome(false, c)
    else
      var item := c.entries[name];
      if !IsAvailable(item) then Outcome(false, c)
      else Outcome(true, Set(c, name, Lent(item, borrower, now)))
  }

  /** `return_media(name)` on the loaded catalog `c`. */
  function Return(c: Catalog, name: string): (r: Outcome)
    requires Valid(c)
    ensures Valid(r.catalog)
    ensures r.ok <==> name in c.entries && !IsAvailable(c.entries[name])
    ensures !r.ok ==> r.catalog == c
    ensures r.ok ==>
      && Get(r.catalog, name) == Some(Cleared(c.entries[name]))
      && r.catalog.keys == c.keys
      && (forall k :: k != name ==> Get(r.catalog, k) == Get(c, k))
  {
    if name !in c.entries then Outcome(false, c)
    else
      var item := c.entries[name];
      if IsAvailable(item) then Outcome(false, c)
      else Outcome(true, Set(c, name, Cleared(item)))
  }

  // ----- Queries -----

  /** The two filters the engine answers lists with. */
  datatype Selector = InCategory(category: string) | OnLoan

  predicate Selects(sel: Selector, it: Item) {
    match sel
    case InCategory(category) => Lower(CategoryOf(it)) == Lower(category)
    case OnLoan => !IsAvailable(it)
  }

  /** `[m for m in items if <sel>(m)]` */
  function Filter(items: seq<Item>, sel: Selector): (r: seq<Item>)
    ensures |r| <= |items|
    ensures forall x :: x in r <==> x in items && Selects(sel, x)
  {
    if items == [] then []
    else (if Selects(sel, items[0]) then [items[0]] else []) + Filter(items[1..], sel)
  }

  /** `list_by_category(category)` on the loaded catalog `c`. */
  function ListByCategory(c: Catalog, category: string): (r: seq<Item>)
    requires Valid(c)
    ensures forall x :: x in r <==> x in Values(c) && Lower(CategoryOf(x)) == Lower(category)
  {
    Filter(Values(c), InCategory(category))
  }

  /** `get_borrowed_items()` on the loaded catalog `c`. */
  function BorrowedItems(c: Catalog): (r: seq<Item>)
    requires Valid(c)
    ensures forall x :: x in r <==> x in Values(c) && !IsAvailable(x)
  {
    Filter(Values(c), OnLoan)
  }

  // ----- Filtering keeps catalog order -----

  lemma {:induction false} FilterAppend(a: seq<Item>, b: seq<Item>, sel: Selector)
    ensures Filter(a + b, sel) == Filter(a, sel) + Filter(b, sel)
  {
    if a == [] {
      assert a + b == b;
    } else {
      assert (a + b)[1..] == a[1..] + b;
      FilterAppend(a[1..], b, sel);
    }
  }

  /** Filtering splits around any one position of the list. */
  lemma FilterAround(s: seq<Item>, i: nat, sel: Selector)
    requires i < |s|
    ensures Filter(s, sel)
         == Filter(s[..i], sel) + (if Selects(sel, s[i]) then [s[i]] else []) + Filter(s[i + 1..], sel)
  {
    assert s == s[..i] + ([s[i]] + s[i + 1..]);
    FilterAppend(s[..i], [s[i]] + s[i + 1..], sel);
    FilterAppend([s[i]], s[i + 1..], sel);
    assert Filter([s[i]], sel) == (if Selects(sel, s[i]) then [s[i]] else []) by {
      assert [s[i]][1..] == [];
    }
  }

  /** Replacing one element changes the filtered list at that element only. */
  lemma FilterReplace(s: seq<Item>, i: nat, v: Item, sel: Selector)
    requires i < |s|
    ensures Filter(s[i := v], sel)
         == Filter(s[..i], sel) + (if Selects(sel, v) then [v] else []) + Filter(s[i + 1..], sel)
  {
    var s' := s[i := v];
    FilterAround(s', i, sel);
    assert s'[..i] == s[..i] && s'[i + 1..] == s[i + 1..];
  }

  /** Replacing an unselected item by a selected one adds it to the filtered list, in place. */
  lemma FilterReplaceAdds(s: seq<Item>, i: nat, v: Item, sel: Selector)
    requires i < |s| && !Selects(sel, s[i]) && Selects(sel, v)
    ensures Filter(s[i := v], sel) == Filter(s[..i], sel) + [v] + Filter(s[i + 1..], sel)
    ensures |Filter(s[i := v], sel)| == |Filter(s, sel)| + 1
  {
    var front, rear := Filter(s[..i], sel), Filter(s[i + 1..], sel);
    FilterReplace(s, i, v, sel);
    FilterAround(s, i, sel);
    assert Filter(s, sel) == front + rear;
    assert |front + [v] + rear| == |front + rear| + 1;
  }

  /** Replacing a selected item by an unselected one takes it off the filtered list. */
  lemma FilterReplaceDrops(s: seq<Item>, i: nat, v: Item, sel: Selector)
    requires i < |s| && Selects(sel, s[i]) && !Selects(sel, v)
    ensures Filter(s[i := v], sel) == Filter(s[..i], sel) + Filter(s[i + 1..], sel)
    ensures |Filter(s[i := v], sel)| + 1 == |Filter(s, sel)|
  {
    var front, rear := Filter(s[..i], sel), Filter(s[i + 1..], sel);
    FilterReplace(s, i, v, sel);
    FilterAround(s, i, sel);
    assert Filter(s, sel) == front + [s[i]] + rear;
    assert |front + [s[i]] + rear| == |front + rear| + 1;
  }

  /** Two selectors that pick the same items give the same list. */
  lemma {:induction false} FilterSameSelection(s: seq<Item>, a: Selector, b: Selector)
    requires forall x :: Selects(a, x) == Selects(b, x)
    ensures Filter(s, a) == Filter(s, b)
  {
    if s != [] {
      FilterSameSelection(s[1..], a, b);
    }
  }

  /** The category filter ignores case: asking in lower case gives the same list. */
  lemma ListByCategoryIgnoresCase(c: Catalog, category: string)
    requires Valid(c)
    ensures ListByCategory(c, Lower(category)) == ListByCategory(c, category)
  {
    LowerIdempotent(category);
    FilterSameSelection(Values(c), InCategory(Lower(category)), InCategory(category));
  }

  // ----- The lending invariant is kept by every mutator -----

  lemma CreatePreservesInvariant(c: Catalog, media: Item)
    requires Valid(c) && Invariant(c)
    ensures Invariant(Create(c, media).catalog)
  {
  }

  lemma RemovePreservesInvariant(c: Catalog, name: string)
    requires Valid(c) && Invariant(c)
    ensures Invariant(Remove(c, name).catalog)
  {
  }

  lemma BorrowPreservesInvariant(c: Catalog, name: string, borrower: string, now: string)
    requires Valid(c) && Invariant(c)
    ensures Invariant(Borrow(c, name, borrower, now).catalog)
  {
  }

  lemma ReturnPreservesInvariant(c: Catalog, name: string)
    requires Valid(c) && Invariant(c)
    ensures Invariant(Return(c, name).catalog)
  {
  }

  // ----- How the operations combine -----

  /** A second create under a name that is taken fails and keeps the first record. */
  lemma CreateIsUnique(c: Catalog, first: Item, second: Item)
    requires Valid(c) && Create(c, first).ok && second.name == first.name
    ensures var c' := Create(c, first).catalog;
      Create(c', second) == Outcome(false, c')
      && Get(c', first.name.value) == Some(Cleared(first))
  {
  }

  /** Deleting a record just created gives back the catalog it was created in. */
  lemma CreateThenRemove(c: Catalog, media: Item)
    requires Valid(c) && Create(c, media).ok
    ensures Remove(Create(c, media).catalog, media.name.value) == Outcome(true, c)
  {
    SetThenDelete(c, media.name.value, Cleared(media));
  }

  /** Once a name is deleted, deleting it again fails and changes nothing. */
  lemma RemoveTwiceFails(c: Catalog, name: string)
    requires Valid(c) && Remove(c, name).ok
    ensures var c' := Remove(c, name).catalog; Remove(c', name) == Outcome(false, c')
  {
  }

  /** Deletion keeps every other record in its place in catalog order. */
  lemma RemoveKeepsOrder(c: Catalog, name: string)
    requires Valid(c) && name in c.entries
    ensures var i := IndexOf(c.keys, name);
      Values(Remove(c, name).catalog) == Values(c)[..i] + Values(c)[i + 1..]
  {
    DeleteValues(c, name);
  }

  /** An item on loan cannot be borrowed again: the first loan stays in place. */
  lemma BorrowTwiceFails(c: Catalog, name: string, first: string, second: string, t1: string, t2: string)
    requires Valid(c) && Borrow(c, name, first, t1).ok
    ensures var c' := Borrow(c, name, first, t1).catalog;
      Borrow(c', name, second, t2) == Outcome(false, c')
      && Get(c', name).value.borrowedBy == Some(first)
  {
  }

  /**
   * Returning an item that was borrowed from its create-time state gives back
   * the catalog as it was before the loan.
   */
  lemma BorrowThenReturn(c: Catalog, name: string, borrower: string, now: string)
    requires Valid(c) && name in c.entries
    requires var it := c.entries[name];
      it.available == Some(true) && it.borrowedBy == None && it.borrowDate == None
    ensures var b := Borrow(c, name, borrower, now);
      b.ok && Return(b.catalog, name) == Outcome(true, c)
  {
  }

  /** Once returned, an item cannot be returned again. */
  lemma ReturnTwiceFails(c: Catalog, name: string)
    requires Valid(c) && Return(c, name).ok
    ensures var c' := Return(c, name).catalog; Return(c', name) == Outcome(false, c')
  {
  }

  // ----- How the queries see the mutations -----

  /** A created item joins its category's list at the end. */
  lemma ListByCategoryAfterCreate(c: Catalog, media: Item, category: string)
    requires Valid(c) && Create(c, media).ok
    ensures ListByCategory(Create(c, media).catalog, category)
         == ListByCategory(c, category)
            + (if Lower(CategoryOf(media)) == Lower(category) then [Cleared(media)] else [])
  {
    var it := Cleared(media);
    SetNewValues(c, media.name.value, it);
    FilterAppend(Values(c), [it], InCategory(category));
    assert Filter([it], InCategory(category))
        == (if Selects(InCategory(category), it) then [it] else []) by {
      assert [it][1..] == [];
    }
  }

  /** A successful borrow puts exactly the lent record on the borrowed list, in its catalog position. */
  lemma BorrowedAfterBorrow(c: Catalog, name: string, borrower: string, now: string)
    requires Valid(c) && Borrow(c, name, borrower, now).ok
    ensures var vs := Values(c);
      var i := IndexOf(c.keys, name);
      && BorrowedItems(Borrow(c, name, borrower, now).catalog)
         == Filter(vs[..i], OnLoan) + [Lent(c.entries[name], borrower, now)] + Filter(vs[i + 1..], OnLoan)
      && |BorrowedItems(Borrow(c, name, borrower, now).catalog)| == |BorrowedItems(c)| + 1
  {
    var i := IndexOf(c.keys, name);
    var lent := Lent(c.entries[name], borrower, now);
    SetExistingValues(c, name, lent);
    FilterReplaceAdds(Values(c), i, lent, OnLoan);
  }

  /** A successful return takes exactly that record off the borrowed list. */
  lemma BorrowedAfterReturn(c: Catalog, name: string)
    requires Valid(c) && Return(c, name).ok
    ensures var vs := Values(c);
      var i := IndexOf(c.keys, name);
      && BorrowedItems(Return(c, name).catalog) == Filter(vs[..i], OnLoan) + Filter(vs[i + 1..], OnLoan)
      && |BorrowedItems(Return(c, name).catalog)| + 1 == |BorrowedItems(c)|
  {
    var i := IndexOf(c.keys, name);
    var back := Cleared(c.entries[name]);
    SetExistingValues(c, name, back);
    FilterReplaceDrops(Values(c), i, back, OnLoan);
  }
}
