/**
 * The rate-limit state the client keeps: one `Rate` per rate-limit category,
 * in a table whose length is the number of categories.
 */
module RateLimit {
  import opened GoTime

  /** The last known state of one rate limit. */
  datatype Rate = Rate(limit: int, remaining: int, reset: Timestamp)

  /** The zero value of Rate, the initial content of every table slot. */
  const ZeroRate: Rate := Rate(0, 0, ZeroTime)

  /** The rate-limit categories, in declaration order. */
  datatype Category =
    | Core
    | AppsCreateList
    | AppsGetUpdateDelete
    | Authn
    | GroupsCreateList
    | GroupsGetUpdateDelete
    | Logs
    | Sessions
    | UsersCreateList
    | UsersGetById
    | UsersGetByLoginName
    | UsersCreateUpdateDeleteById

  /** The `categories` sentinel: the constant declared after the last category. */
  const Categories: nat := 12

  /** The integer value of a category constant (assigned by iota, from 0). */
  function Index(c: Category): nat {
    match c
    case Core => 0
    case AppsCreateList => 1
    case AppsGetUpdateDelete => 2
    case Authn => 3
    case GroupsCreateList => 4
    case GroupsGetUpdateDelete => 5
    case Logs => 6
    case Sessions => 7
    case UsersCreateList => 8
    case UsersGetById => 9
    case UsersGetByLoginName => 10
    case UsersCreateUpdateDeleteById => 11
  }

  /** Every category, in declaration order. */
  const AllCategories: seq<Category> := [
    Core, AppsCreateList, AppsGetUpdateDelete, Authn, GroupsCreateList, GroupsGetUpdateDelete,
    Logs, Sessions, UsersCreateList, UsersGetById, UsersGetByLoginName, UsersCreateUpdateDeleteById
  ]

  /**
   * The constants are consecutive from 0 in declaration order, and the sentinel
   * is the number of categories, so every category is an in-bounds table slot.
   */
  lemma CategoriesAreConsecutive(c: Category)
    ensures Index(Core) == 0
    ensures |AllCategories| == Categories
    ensures forall i :: 0 <= i < |AllCategories| ==> Index(AllCategories[i]) == i
    ensures Index(c) < Categories && AllCategories[Index(c)] == c
  {
  }

  /** Distinct categories are distinct slots. */
  lemma IndexInjective(c: Category, d: Category)
    ensures Index(c) == Index(d) <==> c == d
  {
    CategoriesAreConsecutive(c);
    CategoriesAreConsecutive(d);
  }

  /** The `[categories]Rate` array: exactly one Rate per category. */
  type RateTable = t: seq<Rate> | |t| == Categories witness seq(12, _ => ZeroRate)

  /** The table of a new client: every slot holds the zero Rate. */
  function InitialTable(): (t: RateTable)
    ensures forall c :: Get(t, c) == ZeroRate
  {
    seq(Categories, _ => ZeroRate)
  }

  /** rateLimits[c] */
  function Get(t: RateTable, c: Category): Rate {
    CategoriesAreConsecutive(c);
    t[Index(c)]
  }

  /** rateLimits[c] = r: replaces one slot and leaves every other category's slot as it was. */
  function Set(t: RateTable, c: Category, r: Rate): (t': RateTable)
    ensures Get(t', c) == r
    ensures forall d :: d != c ==> Get(t', d) == Get(t, d)
  {
    CategoriesAreConsecutive(c);
    var t' := t[Index(c) := r];
    assert forall d :: d != c ==> Get(t', d) == Get(t, d) by {
      forall d | d != c ensures Get(t', d) == Get(t, d) {
        IndexInjective(c, d);
      }
    }
    t'
  }
}
