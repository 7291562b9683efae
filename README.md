# Media-lending catalog: storage and lending engine

This project models the storage module of a small media-lending catalog
(books, films, magazines). It covers `storage.py` and every public operation
in it. The catalog is one JSON document: an insertion-ordered mapping from
item name to record. Every operation loads the whole document. A mutating
operation then checks its guard, changes the loaded mapping, writes the
whole mapping back once, and returns a boolean. A record is lent out and
brought back through two states, Available and Borrowed.

The files are:

- `wrappers.dfy`: `Option`, Python's `None` or a present value.
- `ordered_dict.dfy`: the Python `dict` the catalog lives in. It is a key
  order plus a map, with `d[k] = v`, `del d[k]`, `d.get(k)` and
  `d.values()`, and lemmas on how each one changes the value list.
- `engine.dfy`: the record type and the lending invariant. It also holds
  the four guarded transitions (`Create`, `Remove`, `Borrow`, `Return`) as
  functions from the loaded catalog to an `Outcome`, the two list
  comprehensions as one `Filter`, and the lemmas that relate the operations.
- `storage.dfy`: class `MediaStore`. Its field `document` is the data file:
  missing, corrupt, or a parsed catalog. A ghost counter `saves` counts
  writes. Each method follows its Python function step by step and is
  proved against the matching engine function.

The stored form of a record keeps `available` apart from "absent", because
the code reads a missing `available` as true (`item.get("available", True)`).
Records seeded without lending fields therefore count as available.

A record on loan is expected to have a non-empty borrower. `storage.py`
does not check this; the HTTP layer rejects an empty borrower
(`app.py:54-56`). The model follows `storage.py`: `Borrow` accepts any
borrower string, and the invariant it keeps is that a record is available
exactly when it has neither borrower nor borrow date, and that a record on
loan has both. Deleting a record that is on loan is allowed, as in the code.

## Model

| member | source | states |
|---|---|---|
| `Storage.MediaStore.LoadAll` | storage.py:8-16 | a missing or unparsable file reads as the empty catalog; otherwise the parsed catalog, whose key order lists each key once |
| `Storage.MediaStore.SaveAll` | storage.py:18-21 | the file then holds exactly the given catalog (a reload gives it back), and one more save has happened |
| `Storage.MediaStore.ListAll` | storage.py:23-24 | one value per key, in key-insertion order, each the record stored under that key; state is not changed |
| `Storage.MediaStore.ListByCategory` | storage.py:26-27 | exactly the records whose category (absent read as "") equals the argument ignoring case, in catalog order; state is not changed |
| `Storage.MediaStore.FindByNameExact` | storage.py:29-30 | a record is returned iff the name is a key, and it is the record under that exact key |
| `Storage.MediaStore.GetMetadata` | storage.py:32-33 | returns the same answer as the exact-name lookup |
| `Storage.MediaStore.GetBorrowedItems` | storage.py:87-89 | exactly the records whose `available` (absent read as true) is false, in catalog order |
| `Storage.MediaStore.CreateMedia` | storage.py:35-46 | succeeds iff the name is present, non-empty and not yet a key; on failure the file and save count are unchanged; on success the file holds the created catalog after exactly one save, and the caller's record has its lending fields set |
| `Storage.MediaStore.DeleteMedia` | storage.py:48-54 | succeeds iff the name is a key; on success the name is gone, after one save; otherwise nothing changes and nothing is saved |
| `Storage.MediaStore.BorrowMedia` | storage.py:56-70 | succeeds iff the name is a key and its record is available; on success the record is on loan to the borrower since `now`, after one save; otherwise nothing changes |
| `Storage.MediaStore.ReturnMedia` | storage.py:72-85 | succeeds iff the name is a key and its record is on loan; on success it is available with no borrower and no date, after one save; otherwise nothing changes |
| `Engine.IsAvailable` | storage.py:62 | a record is available unless its stored `available` is false; an absent field reads as true (also lines 78 and 89) |
| `Engine.CategoryOf` | storage.py:27 | the stored category, or "" when the record has none |
| `Engine.Lower` | storage.py:27 | the lower-cased string has the same length, contains no upper-case ASCII letter, maps each upper-case letter to its partner and keeps every other character |
| `Engine.LowerIdempotent` | storage.py:27 | lower-casing twice is lower-casing once |
| `Engine.Cleared` | storage.py:40-43 | a record given the create-time lending fields keeps its descriptive fields and is available, with no borrower and no borrow date; return (lines 81-83) sets the same fields |
| `Engine.Lent` | storage.py:65-68 | a lent record keeps its descriptive fields and is unavailable, with the given borrower and date |
| `Engine.Create` | storage.py:35-46 | fails iff the name is missing, empty or taken, and then leaves the catalog as it was; otherwise the initialised record sits under its name at the end of the order, and no other key changes |
| `Engine.Remove` | storage.py:48-54 | succeeds iff the name is a key; then the name is gone, the remaining keys keep their order and no other entry changes |
| `Engine.Borrow` | storage.py:56-70 | succeeds iff the name is a key whose record is available; then only that record changes, to its lent form, and the key order stays |
| `Engine.Return` | storage.py:72-85 | succeeds iff the name is a key whose record is on loan; then only that record changes, to its released form, and the key order stays |
| `Engine.Filter` | storage.py:27 | a comprehension result holds exactly the input items the condition selects, and is no longer than the input |
| `Engine.ListByCategory` | storage.py:26-27 | a record is listed iff it is in the catalog and its category matches ignoring case |
| `Engine.BorrowedItems` | storage.py:87-89 | a record is listed iff it is in the catalog and not available |
| `Engine.FilterAppend` | storage.py:27 | filtering a concatenation is the concatenation of the filtered parts, so comprehensions keep catalog order |
| `Engine.FilterAround` | storage.py:89 | the filtered list splits at any position into the part before, that item if selected, and the part after |
| `Engine.FilterReplace` | storage.py:89 | changing one item of the list changes the filtered list at that item only |
| `Engine.FilterReplaceAdds` | storage.py:89 | when a record not selected becomes selected, the filtered list gains exactly it, at its position, and grows by one |
| `Engine.FilterReplaceDrops` | storage.py:89 | when a selected record stops being selected, the filtered list loses exactly it and shrinks by one |
| `Engine.FilterSameSelection` | storage.py:27 | two conditions that select the same items give the same list |
| `Engine.ListByCategoryIgnoresCase` | storage.py:27 | asking for a category in lower case gives the same list as asking in any case |
| `Engine.CreatePreservesInvariant` | storage.py:35-46 | create keeps every record consistent and stored under its own name |
| `Engine.RemovePreservesInvariant` | storage.py:48-54 | delete keeps every record consistent and stored under its own name |
| `Engine.BorrowPreservesInvariant` | storage.py:56-70 | borrow keeps every record consistent and stored under its own name |
| `Engine.ReturnPreservesInvariant` | storage.py:72-85 | return keeps every record consistent and stored under its own name |
| `Engine.CreateIsUnique` | storage.py:37-39 | after a create, a second create under the same name fails, changes nothing, and the first record stays |
| `Engine.CreateThenRemove` | storage.py:44-51 | deleting a record just created gives back exactly the catalog it was created in, key order included |
| `Engine.RemoveTwiceFails` | storage.py:50-54 | after a delete, deleting the same name again fails and changes nothing |
| `Engine.RemoveKeepsOrder` | storage.py:50-51 | a delete takes exactly that record out of the value list; the others keep their order |
| `Engine.BorrowTwiceFails` | storage.py:61-63 | after a borrow, a second borrow of the same item fails, changes nothing, and the first borrower stays |
| `Engine.BorrowThenReturn` | storage.py:65-83 | borrowing a record in its create-time state and then returning it gives back the catalog from before the loan |
| `Engine.ReturnTwiceFails` | storage.py:77-79 | after a return, a second return of the same item fails and changes nothing |
| `Engine.ListByCategoryAfterCreate` | storage.py:26-44 | a created record joins the end of its category's list and no other category list changes |
| `Engine.BorrowedAfterBorrow` | storage.py:65-70 | a borrow adds exactly the lent record to the borrowed list, at its catalog position; the list grows by one |
| `Engine.BorrowedAfterReturn` | storage.py:81-85 | a return takes exactly that record off the borrowed list; the list shrinks by one |
| `OrderedDict.Empty` | storage.py:12-16 | the empty dict `{}` that a missing or unparsable file loads as: no keys and no values |
| `OrderedDict.Get` | storage.py:30 | `d.get(k)` is a value iff `k` is a key, and it is the value under `k` |
| `OrderedDict.Values` | storage.py:24 | `d.values()` holds one value per key, in key-insertion order |
| `OrderedDict.Set` | storage.py:44 | `d[k] = v` stores `v` under `k`, leaves every other key alone, keeps the order of an existing key, and appends a new one |
| `OrderedDict.Delete` | storage.py:51 | `del d[k]` removes `k`, leaves every other key alone, and keeps the order of the rest |
| `OrderedDict.Without` | storage.py:51 | taking a key out of the key order keeps every other key and keeps the keys distinct |
| `OrderedDict.WithoutAt` | storage.py:51 | taking a key out of a key order removes exactly its one position |
| `OrderedDict.SetNewValues` | storage.py:44 | after storing under a new key, the new value is last in the value list |
| `OrderedDict.SetExistingValues` | storage.py:66-68 | after storing under an existing key (the in-place record update of borrow, and of return at lines 81-83), only that key's position in the value list changes |
| `OrderedDict.DeleteValues` | storage.py:51 | after a delete, the value list is the old one with that key's value taken out |
| `OrderedDict.SetThenDelete` | storage.py:44-51 | inserting a new key and deleting it again gives back the same dict |

## Left out

- File I/O and JSON encoding (`storage.py:8-21`). The data file is the `document` field; parsing is abstract: `Missing` and `Corrupt` stand for the two failures `_load_all` catches. The code lets every other read failure reach the caller (a permission error, or bytes that are not UTF-8: `UnicodeDecodeError` is not a `JSONDecodeError`); in the model `LoadAll` always returns a catalog. A write failure in `_save_all` (disk full, no permission) is not modelled.
- The lock in `_save_all` (`storage.py:6`, `storage.py:19`) and the last-write-wins races between concurrent load→mutate→save sequences. The model is sequential.
- The wall clock (`storage.py:65-68`). `BorrowMedia` takes the already formatted timestamp `now` as a parameter.
- Engine.Lower: only ASCII letters are lower-cased. Python's `str.lower` also folds non-ASCII letters.
- A record field that is absent and one that holds JSON `null` are both `None` for `borrowed_by` and `borrow_date`. `storage.py` never reads these fields, so no guard or filter decision depends on the difference, but the records the code returns (from `list_all`, `find_by_name_exact`, `get_metadata`) and writes back do: after borrow and return, a record that had no such keys carries them with `null`.
- Engine.BorrowThenReturn: the exact restoration it proves holds in the code only for a record whose `borrowed_by` and `borrow_date` were stored as `null` (as `create_media` stores them); a record seeded without those keys comes back with two extra `null` keys.
- Records are modelled with their seven documented fields only. Any other key a caller puts in the record is kept by the code and not by the model.
- JSON values of unexpected types are not modelled: a non-string `name` or `category`, a non-boolean `available` (the code would read `"available": null` as on loan), or a document whose top level is not an object.
- The HTTP layer (`app.py`), the desktop client (`gui.py`) and both test files are not part of this model.
