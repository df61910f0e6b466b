# Categories repository

A model of `CategoriesRepository`, the in-memory store of category records
in `src/repositories/categoriesRepository.ts`. The store keeps one ordered
sequence of records. Records are only ever added, never changed or removed.
It offers three operations:

- `create` builds a record from a name, a description and the creation time,
  appends it to the end of the sequence and returns it;
- `list` returns the whole sequence in creation order;
- `findByName` returns the first record whose name is exactly the given string
  (case-sensitive), or nothing.

The Dafny project has two modules:

- `Wrappers` (`wrappers.dfy`) holds `Option`, which stands for a lookup that
  found nothing (`undefined` in the source);
- `Repositories` (`categories_repository.dfy`) holds the `Category` record,
  the first-match search `FindFirst` with its lemmas, and the class
  `CategoriesRepository`.

The class has a `categories: seq<Category>` field. The constructor and
`Create` assign to it, the way the source assigns and `push`es onto its
private array. `List` and `FindByName` only read it. They have no `modifies`
clause, so the verifier knows they leave the store as it was. `FindByName` is
specified by the pure recursive function `FindFirst`, which is the model of the
`Array.find` call. The lemmas about `FindFirst` say which match is chosen and
how a search behaves after an append. The method `DuplicatesAndCaseExample` is
a client that uses only the contracts. It shows that the first of two
duplicates wins, that `"food"` does not find `"Food"`, and that two `List`
calls in a row agree.

The creation time is a parameter of `Create` of type `Timestamp` (an integer).
The source reads it from the clock.

One expected behaviour needs a premise. "After `create` of `Food`,
`findByName("Food")` returns that record" holds only when no earlier record is
named `Food`. `FindFirstAfterAppend` states it with that premise. Otherwise the
search keeps returning the earlier record.

## Model

| member | source | states |
|---|---|---|
| `Repositories.FindFirst` | src/repositories/categoriesRepository.ts:111 | the search is absent exactly when no record's name equals the key; when present it is the record at a position holding the earliest record with exactly that name |
| `Repositories.FindFirstReturnsFirstMatch` | src/repositories/categoriesRepository.ts:111 | the earliest record with the key's name is what the search returns, so the result is determined by position alone |
| `Repositories.FindFirstNoLaterThan` | src/repositories/categoriesRepository.ts:111 | if the record at position i carries the name, the search returns a record from position i or earlier: a later duplicate never shadows an earlier one |
| `Repositories.FindFirstConcat` | src/repositories/categoriesRepository.ts:111 | searching s followed by t gives s's answer when s has a match and t's answer otherwise |
| `Repositories.FindFirstAfterAppend` | src/repositories/categoriesRepository.ts:79-111 | after appending a record, a name already present keeps its earlier answer, and a name not present is found exactly when the new record carries it |
| `Repositories.CategoriesRepository.constructor` | src/repositories/categoriesRepository.ts:46-48 | a new store holds no records and every lookup on it is absent |
| `Repositories.CategoriesRepository.Create` | src/repositories/categoriesRepository.ts:55-86 | the returned record carries exactly the supplied name, description and time; the store grows by exactly one; the new record is last; every earlier record stays at its position |
| `Repositories.CategoriesRepository.List` | src/repositories/categoriesRepository.ts:93-99 | returns the stored sequence in creation order and changes nothing, so two calls in a row return the same sequence |
| `Repositories.CategoriesRepository.FindByName` | src/repositories/categoriesRepository.ts:106-117 | returns the first-match search over the stored sequence, which `FindFirst` and its lemmas characterise, and changes nothing |

## Left out

- The clock: `created_at` is `new Date()` in the source. Here it is the
  `createdAt` argument of `Create`, and nothing is claimed about its order.
  Some descriptions of this store call creation times non-decreasing. The code
  does not promise that, because the wall clock can move backwards. The model
  follows the code.
- Object identity and aliasing: the source returns the stored record itself
  and the live internal array. A caller can mutate either afterwards. Records
  here are immutable values, and `List` returns a sequence value.
- `Object.assign` is modelled as building the record from its three fields.
  The `Category` class (src/models/CategoryModel) and the `ICategoryRepository`
  and `ICreateCategoryDTO` interfaces are not part of this model. Only the
  `name`, `description` and `created_at` fields are modelled.
