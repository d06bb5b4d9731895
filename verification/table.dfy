/**
  The `recipes` table and the translation between its rows and `Recipe`
  objects: the column list and parameter bindings of the INSERT and UPDATE
  statements, and the reading of a result row into a recipe.
 */
module Table {
  import opened JavaInt
  import opened Recipes

  /** A row of the `recipes` table: one value per column, the columns being the recipe's properties. */
  type Row = Recipe

  /** The table, keyed by its primary key `id`. */
  type Table = map<Int32, Row>

  /** A key the store hands out for a new row: auto-increment keys are positive. */
  type Key = k: Int32 | k > 0 witness 1

  /** Primary keys are positive and every row's `id` column holds its own key. */
  predicate WellFormed(t: Table) {
    forall k | k in t :: k > 0 && t[k].id == k
  }

  /** Storing a row under its own positive id keeps the table well formed. */
  lemma StoreKeepsWellFormed(t: Table, row: Row)
    requires WellFormed(t)
    requires row.id > 0
    ensures WellFormed(t[row.id := row])
  {
  }

  /**
    The ten statement parameters have the Java types of the columns the
    INSERT lists and the UPDATE assigns, in that order: name, category,
    prep_time, cook_time, servings, difficulty, ingredients, instructions,
    notes, favorite.
   */
  predicate ParameterTypes(ps: seq<Value>) {
    && |ps| == 10
    && ps[0].TextValue? && ps[1].TextValue? && ps[2].IntValue? && ps[3].IntValue?
    && ps[4].IntValue? && ps[5].TextValue? && ps[6].TextValue? && ps[7].TextValue?
    && ps[8].TextValue? && ps[9].BoolValue?
  }

  /** The values bound by `pstmt.setX(i, recipe.getX())` for parameters 1 to 10. */
  function Parameters(r: Recipe): (ps: seq<Value>)
    ensures ParameterTypes(ps)
  {
    [TextValue(r.name), TextValue(r.category), IntValue(r.prepTime), IntValue(r.cookTime),
     IntValue(r.servings), TextValue(r.difficulty), TextValue(r.ingredients),
     TextValue(r.instructions), TextValue(r.notes), BoolValue(r.favorite)]
  }

  /** The row a statement writes: parameter i goes into the i-th listed column, and `id` is given separately. */
  function BindColumns(id: Int32, ps: seq<Value>): Row
    requires ParameterTypes(ps)
  {
    Recipe(id, ps[0].t, ps[1].t, ps[2].i, ps[3].i, ps[4].i, ps[5].t, ps[6].t, ps[7].t, ps[8].t, ps[9].b)
  }

  /** The row the INSERT statement stores for `r` under the generated key: every data column holds the matching property of `r`. */
  function InsertedRow(r: Recipe, key: Key): (row: Row)
    ensures row == r.(id := key)
  {
    BindColumns(key, Parameters(r))
  }

  /** The row the UPDATE statement leaves when it rewrites `current` with the values of `r`: the id stays, every data column is rewritten. */
  function UpdatedRow(current: Row, r: Recipe): (row: Row)
    ensures row == r.(id := current.id)
  {
    BindColumns(current.id, Parameters(r))
  }

  /** The columns `mapResultSetToRecipe` reads, in the order it reads them. */
  const ResultColumns: seq<Field> :=
    [Id, Name, Category, PrepTime, CookTime, Servings, Difficulty, Ingredients, Instructions, Notes, Favorite]

  /** The mapper reads every column of the table. */
  lemma ReadsAllColumns(f: Field)
    ensures f in ResultColumns
  {
  }

  /** Calls the setter of each column of `cols` with that column's value in `row`. */
  function ReadInto(r: Recipe, row: Row, cols: seq<Field>): (r': Recipe)
    ensures forall f :: Get(r', f) == if f in cols then Get(row, f) else Get(r, f)
    decreases |cols|
  {
    if cols == [] then r
    else
      var r' := ReadInto(Set(r, cols[0], Get(row, cols[0])), row, cols[1..]);
      assert forall f :: f in cols <==> f == cols[0] || f in cols[1..];
      r'
  }

  /**
    `mapResultSetToRecipe`: a blank recipe whose setters are called with
    each column of the row. No column is lost or swapped.
   */
  function Materialize(row: Row): (r: Recipe)
    ensures r == row
  {
    var r := ReadInto(Blank(), row, ResultColumns);
    assert forall f :: Get(r, f) == Get(row, f) by {
      forall f ensures f in ResultColumns {
        ReadsAllColumns(f);
      }
    }
    Extensionality(r, row);
    r
  }

  /** Reads the current row of a result set into a new recipe, as each query loop does. */
  method ReadRow(row: Row) returns (r: Recipe)
    ensures r == row
  {
    r := Materialize(row);
  }
}
