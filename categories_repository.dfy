/**
 * An in-memory, append-only store of category records: the
 * `CategoriesRepository` class of src/repositories/categoriesRepository.ts.
 *
 * The store holds one ordered sequence of records. `Create` appends,
 * `List` hands the sequence back, and `FindByName` returns the first
 * record whose name is exactly the one asked for.
 */
module Repositories {
  import opened Wrappers

  /**
   * The creation time a record is stamped with. The source reads it from
   * the ambient clock (`new Date()`); here it is whatever value the caller
   * passes in, and nothing is assumed about its order.
   */
  type Timestamp = int

  /** One category record: the three fields `create` assigns. */
  datatype Category = Category(name: string, description: string, createdAt: Timestamp)

  /** `k` is the position of the earliest record in `s` named `name`. */
  ghost predicate IsFirstMatch(s: seq<Category>, name: string, k: int)
  {
    0 <= k < |s| && s[k].name == name &&
    forall j | 0 <= j < k :: s[j].name != name
  }

  /**
   * The first-match search `Array.find` performs with the predicate
   * `category.name === name`: a scan from the front that stops at the
   * first record whose name is equal, character for character, to `name`.
   */
  function FindFirst(s: seq<Category>, name: string): (r: Option<Category>)
    ensures r.None? <==> forall i | 0 <= i < |s| :: s[i].name != name
    ensures r.Some? ==> exists k :: IsFirstMatch(s, name, k) && r.value == s[k]
  {
    if s == [] then None
    else if s[0].name == name then
      assert IsFirstMatch(s, name, 0);
      Some(s[0])
    else
      var r := FindFirst(s[1..], name);
      assert r.None? ==> forall i | 1 <= i < |s| :: s[i].name != name by {
        if r.None? {
          forall i | 1 <= i < |s| ensures s[i].name != name {
            assert s[i] == s[1..][i - 1];
          }
        }
      }
      assert r.Some? ==> exists k :: IsFirstMatch(s, name, k) && r.value == s[k] by {
        if r.Some? {
          var k :| IsFirstMatch(s[1..], name, k) && r.value == s[1..][k];
          assert IsFirstMatch(s, name, k + 1);
        }
      }
      r
  }

  /**
   * The earliest match is what the search returns: which match wins is fixed
   * by position alone. It follows from the contract of `FindFirst`, because
   * two earliest matches cannot be at different positions.
   */
  lemma FindFirstReturnsFirstMatch(s: seq<Category>, name: string, k: int)
    requires IsFirstMatch(s, name, k)
    ensures FindFirst(s, name) == Some(s[k])
  {
  }

  /**
   * A later record with the same name never shadows an earlier one: if the
   * record at position `i` is named `name`, the search returns a record at
   * position `i` or before.
   */
  lemma FindFirstNoLaterThan(s: seq<Category>, name: string, i: int)
    requires 0 <= i < |s| && s[i].name == name
    ensures exists k | 0 <= k <= i :: IsFirstMatch(s, name, k) && FindFirst(s, name) == Some(s[k])
  {
    assert FindFirst(s, name).Some? by {
      assert !(forall j | 0 <= j < |s| :: s[j].name != name) by { assert s[i].name == name; }
    }
    var k :| IsFirstMatch(s, name, k) && FindFirst(s, name).value == s[k];
    assert k <= i;
  }

  /** Searching a concatenation: matches in the front part win over matches in the back part. */
  lemma {:induction false} FindFirstConcat(s: seq<Category>, t: seq<Category>, name: string)
    ensures FindFirst(s + t, name) == if FindFirst(s, name).Some? then FindFirst(s, name) else FindFirst(t, name)
  {
    if s == [] {
      assert s + t == t;
    } else {
      assert (s + t)[0] == s[0];
      assert (s + t)[1..] == s[1..] + t;
      FindFirstConcat(s[1..], t, name);
    }
  }

  /**
   * What appending one record (as `create` does) does to a later search:
   * a name already present keeps its earlier answer; otherwise the new
   * record is found exactly when it carries that name.
   */
  lemma FindFirstAfterAppend(s: seq<Category>, c: Category, name: string)
    ensures FindFirst(s, name).Some? ==> FindFirst(s + [c], name) == FindFirst(s, name)
    ensures FindFirst(s, name).None? ==>
      FindFirst(s + [c], name) == (if c.name == name then Some(c) else None)
  {
    FindFirstConcat(s, [c], name);
  }

  /** The store. Its one field is the private `categories` array, here a sequence of values. */
  class CategoriesRepository {
    var categories: seq<Category>

    /** A new store holds no records, so every lookup is absent. */
    constructor ()
      ensures categories == []
      ensures forall name :: FindFirst(categories, name) == None
    {
      categories := [];
    }

    /**
     * Builds a record from the supplied fields and the creation time,
     * appends it at the end and returns it. Nothing is checked: empty and
     * duplicate names are stored like any other.
     */
    method Create(name: string, description: string, createdAt: Timestamp) returns (category: Category)
      modifies this
      ensures category.name == name && category.description == description && category.createdAt == createdAt
      ensures categories == old(categories) + [category]
      ensures |categories| == |old(categories)| + 1 && categories[|categories| - 1] == category
      ensures categories[..|old(categories)|] == old(categories)
    {
      category := Category(name, description, createdAt);
      categories := categories + [category];
    }

    /** Every stored record, in the order they were created; the store is not changed. */
    method List() returns (all: seq<Category>)
      ensures all == categories
    {
      all := categories;
    }

    /** The earliest-created record named exactly `name`, or `None`; the store is not changed. */
    method FindByName(name: string) returns (category: Option<Category>)
      ensures category == FindFirst(categories, name)
    {
      category := FindFirst(categories, name);
    }
  }

  /**
   * A client of the store that relies on the contracts above alone:
   * duplicates resolve to the first record, the lookup is case-sensitive,
   * and listing twice in a row gives the same sequence.
   */
  method DuplicatesAndCaseExample(t0: Timestamp, t1: Timestamp, t2: Timestamp)
  {
    var repo := new CategoriesRepository();
    var none := repo.FindByName("X");
    assert none == None;

    var food := repo.Create("Food", "meals", t0);
    var first := repo.Create("Dup", "first", t1);
    var second := repo.Create("Dup", "second", t2);
    assert repo.categories == [food, first, second];

    var found := repo.FindByName("Food");
    assert IsFirstMatch(repo.categories, "Food", 0);
    FindFirstReturnsFirstMatch(repo.categories, "Food", 0);
    assert found == Some(food);

    var dup := repo.FindByName("Dup");
    assert "Dup" != "Food" by { assert "Dup"[0] != "Food"[0]; }
    assert IsFirstMatch(repo.categories, "Dup", 1);
    FindFirstReturnsFirstMatch(repo.categories, "Dup", 1);
    assert dup.Some? && dup.value.description == "first";

    var lower := repo.FindByName("food");
    assert "food" != "Food" by { assert "food"[0] != "Food"[0]; }
    assert "food" != "Dup" by { assert "food"[0] != "Dup"[0]; }
    assert lower == None;

    var once := repo.List();
    var twice := repo.List();
    assert once == twice;
  }
}
