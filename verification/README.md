# Recipe organizer: the recipe data-access layer in Dafny

This project models the persistence core of a desktop recipe organizer: the
`Recipe` record and `RecipeDAO`, the class that stores and queries recipes in
a single `recipes` table of a MySQL database.

The table is an abstract store, `map<Int32, Row>`, keyed by the primary key
`id`. A row has exactly the eleven columns of the record, so `Row` is
`Recipe`. A well-formed table has positive keys, and every row's `id` column
holds its own key. Each DAO method is a Dafny function or method. It takes the
table and a `Fault` saying how the round trip to the store went. It returns
what the Java method returns and, for writes, the table afterwards, except
for the two corrections listed under "Findings". A fault
is one that strikes before the statement has read or written anything; the
later failures the Java code can also meet are listed under "Left out". The
meaning of each operation is taken from its SQL text and its return-value
logic:

- `ORDER BY name` puts NULL names first. Ties between equal names come in an
  order the model leaves open.
- `LIKE` is modelled with `%`, `_` and the default escape character `\`.
- `=` against a NULL argument is never true.
- `SELECT DISTINCT ... IS NOT NULL AND != ''` gives a strictly ascending list.
- The affected-row count is turned into a boolean (`> 0`). `-1` is the failure
  sentinel of `addRecipe`.

Modules, one per concern:

- `JavaInt` — 32-bit `int` and Java's wrap-around addition.
- `Strings` — the binary collation order on strings, and substring occurrence.
- `SqlLike` — the `LIKE` matcher, the search pattern as written, and an escaped
  pattern.
- `Recipes` — the record, its constructors, getters, setters, total time and
  `toString`.
- `Table` — the table, its invariant, and the statement parameter bindings. It
  also holds the row-to-recipe mapper.
- `Query` — `WHERE` criteria, `ORDER BY name`, and the distinct-category query.
- `Gateway` — the `Fault` of a round trip to the store, and the outcome of a
  call as the Java code behaves.
- `RecipeDao` — the nine operations, and the laws that relate them.
- `Dialog` — the checks the recipe dialog applies before it saves a recipe.

Modelling choices:

- Comparison is binary: characters compare by code point, with no case
  folding and no trailing-space padding. This applies to `LIKE`, `=`,
  `DISTINCT` and `ORDER BY` alike.
- The key the store hands out for an insert is a parameter (`InsertReply`).
  Only its freshness and positivity matter. A key already in use violates the
  primary key, and the store rejects the statement.
- The affected-row count of an `UPDATE` is the number of matched rows.
- One behaviour is kept as written although its Javadoc suggests otherwise.
  If the INSERT stores a row but the driver reports no generated key,
  `addRecipe` returns -1 ("failed") although the row is in the table.
  `AddRecipe` models this as written.

## Model

| member | source | states |
|---|---|---|
| `JavaInt.Add` | src/com/recipeorganizer/model/Recipe.java:146-148 | Java `int` addition is the exact sum when it fits and agrees with it modulo 2^32; for non-negative operands the result is non-negative exactly when the sum does not exceed `Integer.MAX_VALUE` |
| `Recipes.Get` | src/com/recipeorganizer/model/Recipe.java:58-144 | each getter returns a value of its property's Java type |
| `Recipes.Set` | src/com/recipeorganizer/model/Recipe.java:62-144 | a setter makes its getter return the value set and leaves every other property unchanged |
| `Recipes.SetCurrentValue` | src/com/recipeorganizer/model/Recipe.java:62-144 | setting a property to what its getter returns changes nothing |
| `Recipes.SetTwice` | src/com/recipeorganizer/model/Recipe.java:62-144 | of two calls to the same setter the last one wins |
| `Recipes.SetCommutes` | src/com/recipeorganizer/model/Recipe.java:62-144 | setters of different properties commute |
| `Recipes.Extensionality` | src/com/recipeorganizer/model/Recipe.java:10-20 | a recipe is determined by its eleven properties |
| `Recipes.Blank` | src/com/recipeorganizer/model/Recipe.java:23-24 | the no-argument constructor leaves every property at Java's default: 0, null or false |
| `Recipes.Full` | src/com/recipeorganizer/model/Recipe.java:41-55 | the eleven-argument constructor stores each argument in its matching property |
| `Recipes.FullFromGetters` | src/com/recipeorganizer/model/Recipe.java:41-144 | the eleven-argument constructor applied to a recipe's getters rebuilds that recipe |
| `Recipes.Draft` | src/com/recipeorganizer/model/Recipe.java:26-38 | the eight-argument constructor equals the eleven-argument one with id 0, null notes and favorite false; id, notes and favorite are those of a blank recipe |
| `Recipes.TotalTime` | src/com/recipeorganizer/model/Recipe.java:146-148 | total time is prep time plus cook time whenever that fits in an `int`; with both non-negative it is non-negative exactly when the sum does not overflow |
| `Recipes.TotalTimeWraps` | src/com/recipeorganizer/model/Recipe.java:146-148 | two times of 2^30 minutes give a negative total |
| `Recipes.ToString` | src/com/recipeorganizer/model/Recipe.java:150-153 | `toString()` is the value of the name getter |
| `Strings.BelowIrreflexive` | src/com/recipeorganizer/dao/RecipeDAO.java:21 | no name sorts before itself under the binary order |
| `Strings.BelowTransitive` | src/com/recipeorganizer/dao/RecipeDAO.java:21 | the binary string order is transitive |
| `Strings.BelowTotal` | src/com/recipeorganizer/dao/RecipeDAO.java:21 | any two different strings are ordered one way or the other |
| `SqlLike.RawPattern` | src/com/recipeorganizer/dao/RecipeDAO.java:182 | the pattern as written, `"%" + term + "%"`, equals the escaped pattern exactly when the term has no `%`, `_` or `\` |
| `SqlLike.Escape` | src/com/recipeorganizer/dao/RecipeDAO.java:182 | escaping never shortens a term and leaves it unchanged exactly when it has no `%`, `_` or `\` |
| `SqlLike.PercentMatchesAll` | src/com/recipeorganizer/dao/RecipeDAO.java:182 | the pattern `%` matches every string |
| `SqlLike.EscapedPrefix` | src/com/recipeorganizer/dao/RecipeDAO.java:182 | an escaped term followed by `%` matches exactly the strings that start with the term |
| `SqlLike.LeadingPercent` | src/com/recipeorganizer/dao/RecipeDAO.java:182 | a leading `%` lets the rest of a pattern match any suffix of the string, and only a suffix |
| `SqlLike.PatternMeansContains` | src/com/recipeorganizer/dao/RecipeDAO.java:177-185 | `s LIKE '%'+escaped term+'%'` holds exactly when the term is a substring of `s` |
| `SqlLike.PlainTermsAgree` | src/com/recipeorganizer/dao/RecipeDAO.java:182 | for a term without special characters the written pattern is the escaped one |
| `SqlLike.BackslashTermMissesItself` | src/com/recipeorganizer/dao/RecipeDAO.java:182 | with the pattern as written, the term `a\b` does not match the text `a\b`, which contains it: `\b` stands for a literal `b` |
| `SqlLike.UnderscoreMatchesTooMuch` | src/com/recipeorganizer/dao/RecipeDAO.java:182 | with the pattern as written, the term `_` matches "Soup", which contains no underscore |
| `Table.StoreKeepsWellFormed` | src/com/recipeorganizer/dao/RecipeDAO.java:115-117 | writing a row under its own positive id keeps keys positive and each row's id equal to its key |
| `Table.Parameters` | src/com/recipeorganizer/dao/RecipeDAO.java:79-88 | the ten bound parameters have the Java types of the ten listed columns, in order |
| `Table.InsertedRow` | src/com/recipeorganizer/dao/RecipeDAO.java:71-88 | the inserted row holds every data property of the recipe in its matching column, and the generated key as id |
| `Table.UpdatedRow` | src/com/recipeorganizer/dao/RecipeDAO.java:115-133 | the updated row holds every data property of the recipe and keeps the row's own id |
| `Table.ReadInto` | src/com/recipeorganizer/dao/RecipeDAO.java:286-296 | after the setters for a list of columns, each listed property holds the row's column value and the others are unchanged |
| `Table.Materialize` | src/com/recipeorganizer/dao/RecipeDAO.java:284-297 | the mapped recipe equals the row: no column is lost or swapped |
| `Table.ReadRow` | src/com/recipeorganizer/dao/RecipeDAO.java:27-29 | reading the current result row gives a recipe equal to that row |
| `Query.NameBelowIrreflexive` | src/com/recipeorganizer/dao/RecipeDAO.java:21 | under `ORDER BY name` no name, NULL included, sorts before itself |
| `Query.NameBelowTransitive` | src/com/recipeorganizer/dao/RecipeDAO.java:21 | the `ORDER BY name` order, NULL first, is transitive |
| `Query.NameBelowTotal` | src/com/recipeorganizer/dao/RecipeDAO.java:21 | any two different names, NULL included, are ordered one way or the other |
| `Query.PrependOrdered` | src/com/recipeorganizer/dao/RecipeDAO.java:21 | a recipe whose name sorts no later than any entry of an ordered list may head it |
| `Query.PrependDistinct` | src/com/recipeorganizer/dao/RecipeDAO.java:27-30 | a row not in a duplicate-free list may head it without creating a duplicate |
| `Query.TailFacts` | src/com/recipeorganizer/dao/RecipeDAO.java:21 | the tail of an ordered, duplicate-free list is ordered and duplicate-free, and sorts no earlier than its head |
| `Query.InsertByName` | src/com/recipeorganizer/dao/RecipeDAO.java:21 | inserting a recipe keeps a list ordered by name, adds exactly one copy of that recipe and nothing else (as a multiset), and keeps ids distinct when the recipe is new |
| `Query.SelectOrdered` | src/com/recipeorganizer/dao/RecipeDAO.java:21-30 | the result holds exactly the selected rows of the table, each once, ordered by name |
| `Query.InsertCategory` | src/com/recipeorganizer/dao/RecipeDAO.java:235 | adding a category keeps the list strictly ascending and adds exactly that category |
| `Query.DistinctCategories` | src/com/recipeorganizer/dao/RecipeDAO.java:235-243 | the result is strictly ascending, so it has no duplicates, and it holds exactly the non-empty categories some row has |
| `RecipeDao.GetAllRecipes` | src/com/recipeorganizer/dao/RecipeDAO.java:19-36 | on a healthy round trip it lists every row of the table exactly once, ordered by name; otherwise it returns the empty list |
| `RecipeDao.GetRecipeById` | src/com/recipeorganizer/dao/RecipeDAO.java:44-62 | it returns the row with that id when the round trip is healthy and the id exists, and null in every other case |
| `RecipeDao.GetRecipeByIdAsWritten` | src/com/recipeorganizer/dao/RecipeDAO.java:47-62 | as written, the call raises `NullPointerException` exactly when no connection could be obtained; when it returns, it returns what the corrected model returns |
| `RecipeDao.LostConnectionEscapes` | src/com/recipeorganizer/util/DBConnection.java:32-42 | with the store unreachable, the code as written raises, while the corrected model returns null |
| `RecipeDao.StoreNew` | src/com/recipeorganizer/dao/RecipeDAO.java:90 | a successful INSERT adds exactly one row under the unused key, holding the recipe with that id, and changes no other row |
| `RecipeDao.AddRecipe` | src/com/recipeorganizer/dao/RecipeDAO.java:70-107 | it returns a fresh positive key exactly when the store was reached, stored the row and reported its key. The table then gains exactly that row, holding the recipe with that id. It returns -1 otherwise. No existing row ever changes. When the store was reached and the key is unused, the row is stored even if the key goes unreported and -1 is returned. Otherwise (a fault, zero affected rows, or a key already in use) the table is as it was |
| `RecipeDao.UpdateRecipe` | src/com/recipeorganizer/dao/RecipeDAO.java:114-144 | it returns true exactly when the store was reached and a row has the recipe's id. That row then becomes the recipe and every other row is unchanged. Otherwise the table is unchanged |
| `RecipeDao.DeleteRecipe` | src/com/recipeorganizer/dao/RecipeDAO.java:151-168 | it returns true exactly when the store was reached and the row existed. Afterwards that id is absent, and every other row is kept as it was. A fault leaves the table unchanged |
| `RecipeDao.SearchMeansMentions` | src/com/recipeorganizer/dao/RecipeDAO.java:177-185 | the escaped three-column LIKE selects a row exactly when its name, category or ingredients is non-null and contains the term |
| `RecipeDao.EmptyTermMatchesNonNull` | src/com/recipeorganizer/dao/RecipeDAO.java:182 | the empty term matches exactly the rows with a non-null name, category or ingredients |
| `RecipeDao.SearchRecipes` | src/com/recipeorganizer/dao/RecipeDAO.java:175-199 | every listed row is a row of the table that mentions the term. On a healthy round trip every such row is listed, once, ordered by name. Otherwise the list is empty |
| `RecipeDao.SearchRecipesAsWritten` | src/com/recipeorganizer/dao/RecipeDAO.java:175-199 | as written, the term's own `%`, `_` and `\` act as pattern characters; for a term without them the result is that of the corrected search |
| `RecipeDao.OwnNameMissedAsWritten` | src/com/recipeorganizer/dao/RecipeDAO.java:182 | as written, searching for `a\b` does not list a recipe called `a\b`, although its name contains the term |
| `RecipeDao.WildcardTermOverMatches` | src/com/recipeorganizer/dao/RecipeDAO.java:182 | as written, searching for `_` lists a recipe called "Soup" that mentions no underscore |
| `RecipeDao.GetRecipesByCategory` | src/com/recipeorganizer/dao/RecipeDAO.java:206-227 | it lists exactly the rows whose category equals the argument, each once, ordered by name. A null argument or a fault gives the empty list |
| `RecipeDao.GetAllCategories` | src/com/recipeorganizer/dao/RecipeDAO.java:233-250 | the result is strictly ascending. On a healthy round trip it holds exactly the non-empty categories present in the table. Otherwise it is empty |
| `RecipeDao.ToggleFavorite` | src/com/recipeorganizer/dao/RecipeDAO.java:258-276 | it returns true exactly when the store was reached and the row exists. Only that row's favorite column changes, to the given flag. No key is added or removed |
| `RecipeDao.AddThenGet` | src/com/recipeorganizer/dao/RecipeDAO.java:79-98 | after a successful add, `getRecipeById` with the returned key gives the recipe with that id and its ten data properties unchanged |
| `RecipeDao.UpdateThenGet` | src/com/recipeorganizer/dao/RecipeDAO.java:115-137 | after a successful update, `getRecipeById` returns the recipe exactly as passed in |
| `RecipeDao.DeleteThenGet` | src/com/recipeorganizer/dao/RecipeDAO.java:151-161 | after a delete, `getRecipeById` of that id finds nothing, and every other lookup is unchanged |
| `RecipeDao.ToggleThenGet` | src/com/recipeorganizer/dao/RecipeDAO.java:258-269 | after `toggleFavorite(id, f)`, `getRecipeById(id)` shows favorite f and all other properties as before |
| `RecipeDao.FlipTwiceRestores` | src/com/recipeorganizer/ui/RecipeOrganizerApp.java:411-418 | flipping the favorite flag twice, as the favorite button does, restores the table |
| `RecipeDao.UpdateWithStoredRecipe` | src/com/recipeorganizer/dao/RecipeDAO.java:114-137 | updating a row with its own stored recipe succeeds and changes nothing |
| `RecipeDao.AddedRecipeFoundByName` | src/com/recipeorganizer/ui/RecipeDialog.java:236-270 | an added recipe with a non-null name, as every recipe the dialog saves has, is then listed by the corrected (escaped) search for that name; as written, the search can miss it (`RecipeDao.OwnNameMissedAsWritten`) |
| `RecipeDao.DeletedRowIsNotListed` | src/com/recipeorganizer/dao/RecipeDAO.java:151-161 | after a successful delete no listing contains the deleted id |
| `RecipeDao.ListedCategoryIsNonEmpty` | src/com/recipeorganizer/dao/RecipeDAO.java:206-250 | every category in the category list has at least one recipe under the by-category query |
| `Dialog.DropLeading` | src/com/recipeorganizer/ui/RecipeDialog.java:249 | the result is a suffix of the text that is empty or starts with a non-blank character, and everything dropped is blank |
| `Dialog.DropTrailing` | src/com/recipeorganizer/ui/RecipeDialog.java:249 | the result is a prefix of the text that is empty or ends with a non-blank character, and everything dropped is blank |
| `Dialog.Trim` | src/com/recipeorganizer/ui/RecipeDialog.java:238 | the trimmed text is empty exactly when the text is blank throughout; otherwise it starts and ends with non-blank characters. It is the slice of the text left after dropping only blank characters at each end |
| `Dialog.TrimEmpty` | src/com/recipeorganizer/ui/RecipeDialog.java:238 | dropping blanks at both ends leaves nothing exactly when every character is blank, which is when the dialog rejects the name |
| `Dialog.TrimSlice` | src/com/recipeorganizer/ui/RecipeDialog.java:249 | dropping blanks at both ends leaves a slice of the text with only blank characters before and after it |
| `Dialog.DialogTotalTime` | src/com/recipeorganizer/ui/RecipeDialog.java:95-112 | within the spinner bounds the total time is the exact sum and lies in 0..1998 |

## Findings

| source | as written | input that shows it | evidently intended | confidence | as-written member | corrected member |
|---|---|---|---|---|---|---|
| src/com/recipeorganizer/dao/RecipeDAO.java:182 | the search term is pasted into the LIKE pattern unescaped, so `%`, `_` and `\` in the term act as wildcards and escapes | term `a\b` against a recipe named `a\b` with null category and ingredients: a search for its own name does not list it (`RecipeDao.OwnNameMissedAsWritten`). Term `_` against a recipe named "Soup": it is listed although nothing in it contains `_` (`RecipeDao.WildcardTermOverMatches`) | list the recipes whose name, category or ingredients contain the term literally | medium; not executed | `RecipeDao.SearchRecipesAsWritten` | `RecipeDao.SearchRecipes` |
| src/com/recipeorganizer/dao/RecipeDAO.java:47-48 | `DBConnection.getConnection()` returns null when it cannot connect. The DAO then calls `prepareStatement` on null, and the `NullPointerException` escapes the `catch (SQLException e)` | the database is unreachable; any DAO call, shown for `getRecipeById` (`RecipeDao.LostConnectionEscapes`) | degrade to the method's fallback value (null, empty list, -1, false) as the catch blocks do for store errors | high; not executed | `RecipeDao.GetRecipeByIdAsWritten` | `RecipeDao.GetRecipeById` |

All nine DAO methods open their connection in the same way. The corrected
fault handling is used throughout the model: an unreachable store gives the
same fallback as a rejected statement.

## Left out

- Connection handling in `DBConnection`: driver loading, the hard-coded URL
  and credentials, opening and closing connections, and console logging are
  I/O. Their effect on a call is the `Fault` parameter.
- Stack traces and `System.err` messages in the DAO's catch blocks are output
  only.
- Case-insensitive collations are not modelled. Comparison is binary, so the
  search is case-sensitive, and categories differing only in case are
  distinct. The database's configured collation is not visible in the code.
- The auto-increment policy is not modelled. The generated key is a
  parameter, and only its freshness and positivity matter.
- Concurrency between callers and transaction isolation are left to the store.
  Every operation is a single atomic statement.
- The schema's own constraints (NOT NULL columns, column widths) are not part
  of the code. Every text column may hold NULL, and every integer column holds
  a Java `int`.
- GetAllRecipes, SearchRecipes, SearchRecipesAsWritten, GetRecipesByCategory:
  an `SQLException` from `rs.next()` or the mapper after some rows were read
  is not modelled. Java then returns the rows read so far, a prefix of the
  ordered result. The model's faults strike before any row is read, and give
  the empty list.
- GetAllCategories: an `SQLException` from `rs.next()` or
  `rs.getString("category")` after some categories were read is not modelled.
  Java then returns the categories read so far, a prefix of the ascending
  list. The model's faults strike before any category is read, and give the
  empty list.
- UpdateRecipe, DeleteRecipe, ToggleFavorite: an `SQLException` raised when
  the statement or connection is closed after `executeUpdate` is not modelled.
  Java then returns false although the write took effect. In the model,
  false under a fault always means the table is unchanged.
- SearchRecipes: takes a non-null term. Given null, Java would build the
  pattern `%null%`. The only caller passes the text of a search field.
- Materialize: results are built from the stored rows. Driver-level type
  conversions in `getInt`/`getString` (for example NULL read as 0) do not
  arise, because the table holds typed values.
- The Swing windows and dialogs (`RecipeOrganizerApp`, `RecipeDialog`) are
  presentation. Only the dialog's input checks (a trimmed non-empty name,
  spinner bounds 0..999 minutes and 1..100 servings, which hold for a new
  recipe or for an edit of one already within them) and the favorite flip are
  modelled. The DAO does not check them, so they are not preconditions of
  any DAO operation. `Dialog.Trim` models the `trim()` the dialog applies to
  the name at lines 238 and 249 of `RecipeDialog.java` on its own terms. The
  DAO lemmas need only a non-null name, which every saved recipe has. The
  spinner bounds are the premise of `Dialog.DialogTotalTime`.
