/**
  `RecipeDAO`: the nine operations over the `recipes` table. Each one takes
  the table and the way its round trip to the store goes, and returns what
  the Java method returns together with the table afterwards. A round trip
  that fails before the statement has read or written anything yields the
  method's fallback (empty list, null, -1 or false) and leaves the table as
  it was.
 */
module RecipeDao {
  import opened Wrappers
  import opened JavaInt
  import opened Strings
  import opened SqlLike
  import opened Recipes
  import opened Table
  import opened Query
  import opened Gateway

  /** A write's return value and the table after it. */
  datatype Applied<T> = Applied(answer: T, table: Table)

  /** What the store does with the INSERT. */
  datatype InsertReply =
    | NoRowAffected                       // `executeUpdate()` returns 0
    | Inserted(key: Key, reported: bool)  // the row is stored under `key`; `reported` tells whether `getGeneratedKeys()` yields it

  /** The id `addRecipe` returns when it fails. */
  const FAILED: Int32 := -1

  /** `getAllRecipes()`: every row, ordered by name. */
  method GetAllRecipes(t: Table, fault: Fault) returns (rs: seq<Recipe>)
    requires WellFormed(t)
    ensures fault.Healthy? ==> ListsWhere(t, AnyRow, rs)
    ensures fault.Healthy? ==> forall k | k in t :: t[k] in rs
    ensures !fault.Healthy? ==> rs == []
  {
    if fault.Healthy? {
      rs := SelectOrdered(t, AnyRow);
    } else {
      rs := [];
    }
  }

  /** `getRecipeById(id)`: the row with that id, or null. */
  function GetRecipeById(t: Table, id: Int32, fault: Fault): (r: Option<Recipe>)
    requires WellFormed(t)
    ensures r.Some? <==> fault.Healthy? && id in t
    ensures r.Some? ==> r.value == t[id] && r.value.id == id
  {
    if fault.Healthy? && id in t then Some(Materialize(t[id])) else None
  }

  /**
    `getRecipeById(id)` as the Java code behaves when the store is
    unreachable: `getConnection()` returns null, and `conn.prepareStatement`
    raises a `NullPointerException` that the `catch (SQLException e)` does
    not catch. Every DAO method opens its connection the same way.
   */
  function GetRecipeByIdAsWritten(t: Table, id: Int32, fault: Fault): (c: Call<Option<Recipe>>)
    requires WellFormed(t)
    ensures c.ThrowsNullPointer? <==> fault.Unreachable?
    ensures c.Returns? ==> c.value == GetRecipeById(t, id, fault)
  {
    match fault
    case Unreachable => ThrowsNullPointer
    case Rejected => Returns(None)
    case Healthy => Returns(if id in t then Some(Materialize(t[id])) else None)
  }

  /** With the store down, the call as written raises instead of returning null, as the corrected model does. */
  lemma LostConnectionEscapes(t: Table, id: Int32)
    requires WellFormed(t)
    ensures GetRecipeByIdAsWritten(t, id, Unreachable) == ThrowsNullPointer
    ensures GetRecipeById(t, id, Unreachable) == None
  {
  }

  /** The table after the INSERT has stored `r` under the unused `key`. */
  function StoreNew(t: Table, r: Recipe, key: Key): (t': Table)
    requires WellFormed(t)
    requires key !in t
    ensures WellFormed(t')
    ensures forall k :: k in t' <==> k in t || k == key
    ensures forall k | k in t :: t'[k] == t[k]
    ensures t'[key] == r.(id := key)
  {
    var row := InsertedRow(r, key);
    StoreKeepsWellFormed(t, row);
    t[key := row]
  }

  /**
    `addRecipe(recipe)`: stores the ten data properties under a fresh key and
    returns the key, or -1. A key already in use violates the primary key,
    which the store rejects. If the row is stored but no generated key is
    reported, the method still returns -1.
   */
  function AddRecipe(t: Table, r: Recipe, fault: Fault, reply: InsertReply): (w: Applied<Int32>)
    requires WellFormed(t)
    ensures WellFormed(w.table)
    ensures w.answer != FAILED <==> fault.Healthy? && reply.Inserted? && reply.key !in t && reply.reported
    ensures w.answer != FAILED ==> w.answer > 0 && w.answer !in t && w.answer in w.table
    ensures w.answer != FAILED ==> forall k :: k in w.table <==> k in t || k == w.answer
    ensures w.answer != FAILED ==> w.table[w.answer] == r.(id := w.answer)
    ensures forall k | k in t :: k in w.table && w.table[k] == t[k]
    ensures !fault.Healthy? || reply.NoRowAffected? ==> w.table == t
    ensures w.table == if fault.Healthy? && reply.Inserted? && reply.key !in t then StoreNew(t, r, reply.key) else t
  {
    if !fault.Healthy? then Applied(FAILED, t)
    else match reply
      case NoRowAffected => Applied(FAILED, t)
      case Inserted(key, reported) =>
        if key in t then Applied(FAILED, t)
        else Applied(if reported then key else FAILED, StoreNew(t, r, key))
  }

  /**
    `updateRecipe(recipe)`: rewrites the ten data columns of the row whose id
    is `recipe.getId()`, and reports whether such a row was matched.
   */
  function UpdateRecipe(t: Table, r: Recipe, fault: Fault): (w: Applied<bool>)
    requires WellFormed(t)
    ensures WellFormed(w.table)
    ensures w.answer <==> fault.Healthy? && r.id in t
    ensures w.answer ==> w.table == t[r.id := r]
    ensures !w.answer ==> w.table == t
  {
    if fault.Healthy? && r.id in t then
      var row := UpdatedRow(t[r.id], r);
      StoreKeepsWellFormed(t, row);
      Applied(true, t[r.id := row])
    else Applied(false, t)
  }

  /** `deleteRecipe(id)`: removes the row with that id and reports whether there was one. */
  function DeleteRecipe(t: Table, id: Int32, fault: Fault): (w: Applied<bool>)
    requires WellFormed(t)
    ensures WellFormed(w.table)
    ensures w.answer <==> fault.Healthy? && id in t
    ensures fault.Healthy? ==> id !in w.table
    ensures forall k | k != id :: (k in w.table <==> k in t)
    ensures forall k | k in w.table :: k in t && w.table[k] == t[k]
    ensures !fault.Healthy? ==> w.table == t
  {
    if fault.Healthy? then Applied(id in t, t - {id}) else Applied(false, t)
  }

  /** Name, category or ingredients is non-null and contains `term`. */
  predicate Mentions(r: Recipe, term: string) {
    || (r.name.Some? && Contains(r.name.value, term))
    || (r.category.Some? && Contains(r.category.value, term))
    || (r.ingredients.Some? && Contains(r.ingredients.value, term))
  }

  /** The escaped search pattern selects exactly the rows that mention the term. */
  lemma SearchMeansMentions(row: Row, term: string)
    ensures Selects(Matches(Pattern(term)), row) <==> Mentions(row, term)
  {
    if row.name.Some? {
      PatternMeansContains(row.name.value, term);
    }
    if row.category.Some? {
      PatternMeansContains(row.category.value, term);
    }
    if row.ingredients.Some? {
      PatternMeansContains(row.ingredients.value, term);
    }
  }

  /** The empty term selects every row with a non-null name, category or ingredients. */
  lemma EmptyTermMatchesNonNull(row: Row)
    ensures Mentions(row, "") <==> row.name.Some? || row.category.Some? || row.ingredients.Some?
  {
    if row.name.Some? {
      ContainsEmpty(row.name.value);
    }
    if row.category.Some? {
      ContainsEmpty(row.category.value);
    }
    if row.ingredients.Some? {
      ContainsEmpty(row.ingredients.value);
    }
  }

  /** `searchRecipes(term)`: the rows whose name, category or ingredients contain the term, ordered by name. */
  method SearchRecipes(t: Table, term: string, fault: Fault) returns (rs: seq<Recipe>)
    requires WellFormed(t)
    ensures fault.Healthy? ==> ListsWhere(t, Matches(Pattern(term)), rs)
    ensures forall r | r in rs :: r.id in t && t[r.id] == r && Mentions(r, term)
    ensures fault.Healthy? ==> forall k | k in t && Mentions(t[k], term) :: t[k] in rs
    ensures !fault.Healthy? ==> rs == []
  {
    if fault.Healthy? {
      rs := SelectOrdered(t, Matches(Pattern(term)));
      forall k | k in t {
        SearchMeansMentions(t[k], term);
      }
    } else {
      rs := [];
    }
  }

  /**
    `searchRecipes(term)` as written: the term goes into the LIKE pattern
    unescaped, so `%`, `_` and `\` in it act as wildcards and escapes.
    For a term without them it lists the same rows as `SearchRecipes`.
   */
  method SearchRecipesAsWritten(t: Table, term: string, fault: Fault) returns (rs: seq<Recipe>)
    requires WellFormed(t)
    ensures fault.Healthy? ==> ListsWhere(t, Matches(RawPattern(term)), rs)
    ensures fault.Healthy? && Plain(term) ==> ListsWhere(t, Matches(Pattern(term)), rs)
    ensures !fault.Healthy? ==> rs == []
  {
    if fault.Healthy? {
      rs := SelectOrdered(t, Matches(RawPattern(term)));
      if Plain(term) {
        PlainTermsAgree(term);
      }
    } else {
      rs := [];
    }
  }

  /** As written, searching for `_` lists a recipe called "Soup" that mentions no underscore anywhere. */
  lemma WildcardTermOverMatches(t: Table, rs: seq<Recipe>)
    requires WellFormed(t)
    requires 1 in t && t[1].name == Some("Soup") && t[1].category == None && t[1].ingredients == None
    requires ListsWhere(t, Matches(RawPattern("_")), rs)
    ensures t[1] in rs
    ensures !Mentions(t[1], "_")
  {
    UnderscoreMatchesTooMuch();
  }

  /** As written, searching for `a\b` does not list a recipe called `a\b`, although its name contains the term. */
  lemma OwnNameMissedAsWritten(t: Table, rs: seq<Recipe>)
    requires WellFormed(t)
    requires 1 in t && t[1].name == Some("a\\b") && t[1].category == None && t[1].ingredients == None
    requires ListsWhere(t, Matches(RawPattern("a\\b")), rs)
    ensures t[1] !in rs
    ensures Mentions(t[1], "a\\b")
  {
    BackslashTermMissesItself();
  }

  /** `getRecipesByCategory(category)`: the rows whose category equals the argument, ordered by name; a null argument matches nothing. */
  method GetRecipesByCategory(t: Table, category: Text, fault: Fault) returns (rs: seq<Recipe>)
    requires WellFormed(t)
    ensures fault.Healthy? ==> ListsWhere(t, CategoryIs(category), rs)
    ensures forall r | r in rs :: r.category == category
    ensures fault.Healthy? && category.Some? ==> forall k | k in t && t[k].category == category :: t[k] in rs
    ensures category.None? ==> rs == []
    ensures !fault.Healthy? ==> rs == []
  {
    if fault.Healthy? {
      rs := SelectOrdered(t, CategoryIs(category));
      if |rs| > 0 {
        assert rs[0] in rs;
      }
    } else {
      rs := [];
    }
  }

  /** `getAllCategories()`: the distinct non-null, non-empty categories in ascending order. */
  method GetAllCategories(t: Table, fault: Fault) returns (cs: seq<string>)
    ensures StrictlyAscending(cs)
    ensures fault.Healthy? ==> forall c :: c in cs <==> c != "" && HasCategory(t, c)
    ensures !fault.Healthy? ==> cs == []
  {
    if fault.Healthy? {
      cs := DistinctCategories(t);
    } else {
      cs := [];
    }
  }

  /** `toggleFavorite(id, favorite)`: sets the favorite column of that one row and reports whether it exists. */
  function ToggleFavorite(t: Table, id: Int32, favorite: bool, fault: Fault): (w: Applied<bool>)
    requires WellFormed(t)
    ensures WellFormed(w.table)
    ensures w.answer <==> fault.Healthy? && id in t
    ensures w.table.Keys == t.Keys
    ensures forall k | k in t && k != id :: w.table[k] == t[k]
    ensures id in t ==> forall f | f != Favorite :: Get(w.table[id], f) == Get(t[id], f)
    ensures id in t ==> w.table[id].favorite == if w.answer then favorite else t[id].favorite
  {
    if fault.Healthy? && id in t then Applied(true, t[id := Set(t[id], Favorite, BoolValue(favorite))])
    else Applied(false, t)
  }

  // Properties that relate several operations.

  /** What `addRecipe` stored, `getRecipeById` returns under the returned id: the ten data properties unchanged. */
  lemma AddThenGet(t: Table, r: Recipe, fault: Fault, reply: InsertReply)
    requires WellFormed(t)
    requires AddRecipe(t, r, fault, reply).answer != FAILED
    ensures var w := AddRecipe(t, r, fault, reply);
      && GetRecipeById(w.table, w.answer, Healthy) == Some(Set(r, Id, IntValue(w.answer)))
      && forall f | f != Id :: Get(GetRecipeById(w.table, w.answer, Healthy).value, f) == Get(r, f)
  {
  }

  /** After a successful `updateRecipe`, `getRecipeById` returns the recipe exactly as passed in. */
  lemma UpdateThenGet(t: Table, r: Recipe, fault: Fault)
    requires WellFormed(t)
    requires UpdateRecipe(t, r, fault).answer
    ensures GetRecipeById(UpdateRecipe(t, r, fault).table, r.id, Healthy) == Some(r)
  {
  }

  /** After `deleteRecipe(id)`, whatever it returned, `getRecipeById(id)` finds nothing, and no other lookup changes. */
  lemma DeleteThenGet(t: Table, id: Int32, fault: Fault, other: Int32, fault': Fault)
    requires WellFormed(t)
    requires fault.Healthy?
    ensures GetRecipeById(DeleteRecipe(t, id, fault).table, id, fault') == None
    ensures other != id ==> GetRecipeById(DeleteRecipe(t, id, fault).table, other, fault') == GetRecipeById(t, other, fault')
  {
  }

  /** After a successful `toggleFavorite(id, f)`, `getRecipeById(id)` shows favorite `f` and every other property as before. */
  lemma ToggleThenGet(t: Table, id: Int32, favorite: bool)
    requires WellFormed(t)
    requires id in t
    ensures GetRecipeById(ToggleFavorite(t, id, favorite, Healthy).table, id, Healthy) == Some(Set(t[id], Favorite, BoolValue(favorite)))
  {
  }

  /** The application's favorite button flips the flag; pressing it twice restores the table. */
  lemma FlipTwiceRestores(t: Table, id: Int32)
    requires WellFormed(t)
    requires id in t
    ensures var once := ToggleFavorite(t, id, !t[id].favorite, Healthy).table;
      ToggleFavorite(once, id, !once[id].favorite, Healthy).table == t
  {
    var once := ToggleFavorite(t, id, !t[id].favorite, Healthy).table;
    var twice := ToggleFavorite(once, id, !once[id].favorite, Healthy).table;
    Extensionality(twice[id], t[id]);
  }

  /** Updating a row with the recipe stored in it (what `getRecipeById` returns for it) succeeds and changes nothing. */
  lemma UpdateWithStoredRecipe(t: Table, id: Int32)
    requires WellFormed(t)
    requires id in t
    ensures UpdateRecipe(t, t[id], Healthy) == Applied(true, t)
  {
    assert t[id].id == id;
    assert t[id := t[id]] == t;
  }

  /** An added recipe with a name, as every recipe the dialog saves has, is found again by searching for that name. */
  lemma AddedRecipeFoundByName(t: Table, r: Recipe, reply: InsertReply, rs: seq<Recipe>)
    requires WellFormed(t)
    requires r.name.Some?
    requires AddRecipe(t, r, Healthy, reply).answer != FAILED
    requires ListsWhere(AddRecipe(t, r, Healthy, reply).table, Matches(Pattern(r.name.value)), rs)
    ensures Set(r, Id, IntValue(AddRecipe(t, r, Healthy, reply).answer)) in rs
  {
    var w := AddRecipe(t, r, Healthy, reply);
    var stored := w.table[w.answer];
    ContainsSelf(r.name.value);
    SearchMeansMentions(stored, r.name.value);
  }

  /** After a successful delete, no listing shows the deleted row. */
  lemma DeletedRowIsNotListed(t: Table, id: Int32, c: Criterion, rs: seq<Recipe>)
    requires WellFormed(t)
    requires ListsWhere(DeleteRecipe(t, id, Healthy).table, c, rs)
    ensures forall r | r in rs :: r.id != id
  {
  }

  /** Every category `getAllCategories` lists has at least one recipe under `getRecipesByCategory`. */
  lemma ListedCategoryIsNonEmpty(t: Table, c: string, rs: seq<Recipe>)
    requires WellFormed(t)
    requires HasCategory(t, c)
    requires ListsWhere(t, CategoryIs(Some(c)), rs)
    ensures |rs| > 0
  {
    var k :| k in t && t[k].category == Some(c);
    assert t[k] in rs;
  }
}
