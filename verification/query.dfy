/**
  The SELECT statements of the DAO: a WHERE criterion, `ORDER BY name`, and
  `SELECT DISTINCT category ... ORDER BY category`, evaluated over the table.
 */
module Query {
  import opened Wrappers
  import opened Strings
  import opened SqlLike
  import opened Recipes
  import opened Table

  /** `a` sorts strictly before `b` in `ORDER BY name`: NULL first, then strings in binary order. */
  predicate NameBelow(a: Text, b: Text) {
    match (a, b)
    case (None, Some(_)) => true
    case (Some(x), Some(y)) => Below(x, y)
    case _ => false
  }

  lemma NameBelowIrreflexive(a: Text)
    ensures !NameBelow(a, a)
  {
    if a.Some? {
      BelowIrreflexive(a.value);
    }
  }

  lemma NameBelowTransitive(a: Text, b: Text, c: Text)
    requires NameBelow(a, b) && NameBelow(b, c)
    ensures NameBelow(a, c)
  {
    if a.Some? {
      BelowTransitive(a.value, b.value, c.value);
    }
  }

  lemma NameBelowTotal(a: Text, b: Text)
    ensures a == b || NameBelow(a, b) || NameBelow(b, a)
  {
    if a.Some? && b.Some? {
      BelowTotal(a.value, b.value);
    }
  }

  /** No recipe comes after one whose name sorts strictly before its own: ascending by name, ties in any order. */
  predicate OrderedByName(rs: seq<Recipe>) {
    forall i, j | 0 <= i < j < |rs| :: !NameBelow(rs[j].name, rs[i].name)
  }

  /** No two entries of `rs` are the same row. */
  predicate DistinctIds(rs: seq<Recipe>) {
    forall i, j | 0 <= i < j < |rs| :: rs[i].id != rs[j].id
  }

  /** The WHERE clauses of the DAO's row queries. */
  datatype Criterion =
    | AnyRow                      // no WHERE clause
    | Matches(pattern: string)    // name LIKE ? OR category LIKE ? OR ingredients LIKE ?
    | CategoryIs(category: Text)  // category = ?

  /** `column LIKE pattern` is true only for a non-NULL column. */
  predicate LikeColumn(column: Text, pattern: string) {
    column.Some? && Like(column.value, pattern)
  }

  /** The WHERE clause holds of `row`; a comparison with NULL is never true. */
  predicate Selects(c: Criterion, row: Row) {
    match c
    case AnyRow => true
    case Matches(p) => LikeColumn(row.name, p) || LikeColumn(row.category, p) || LikeColumn(row.ingredients, p)
    case CategoryIs(cat) => cat.Some? && row.category == cat
  }

  /** `rs` holds exactly the rows of `t` the criterion selects, each once, ordered by name. */
  ghost predicate ListsWhere(t: Table, c: Criterion, rs: seq<Recipe>) {
    && (forall r | r in rs :: r.id in t && t[r.id] == r && Selects(c, r))
    && (forall k | k in t && Selects(c, t[k]) :: t[k] in rs)
    && DistinctIds(rs)
    && OrderedByName(rs)
  }

  /** A recipe that sorts no later than any entry of an ordered list may head it. */
  lemma PrependOrdered(h: Recipe, rest: seq<Recipe>)
    requires OrderedByName(rest)
    requires forall y | y in rest :: !NameBelow(y.name, h.name)
    ensures OrderedByName([h] + rest)
  {
    assert forall j | 1 <= j < |rest| + 1 :: ([h] + rest)[j] == rest[j - 1] && rest[j - 1] in rest;
  }

  /** A row that none of a duplicate-free list holds may head it. */
  lemma PrependDistinct(h: Recipe, rest: seq<Recipe>)
    ensures DistinctIds(rest) && (forall y | y in rest :: y.id != h.id) ==> DistinctIds([h] + rest)
  {
    assert forall j | 1 <= j < |rest| + 1 :: ([h] + rest)[j] == rest[j - 1] && rest[j - 1] in rest;
  }

  /** The entries of an ordered, duplicate-free list after its head sort no earlier than the head and are other rows. */
  lemma TailFacts(rs: seq<Recipe>)
    requires |rs| > 0
    ensures OrderedByName(rs) ==> OrderedByName(rs[1..]) && forall y | y in rs[1..] :: !NameBelow(y.name, rs[0].name)
    ensures DistinctIds(rs) ==> DistinctIds(rs[1..]) && forall y | y in rs[1..] :: y.id != rs[0].id
    ensures forall y | y in rs[1..] :: y in rs
  {
    forall y | y in rs[1..]
      ensures OrderedByName(rs) ==> !NameBelow(y.name, rs[0].name)
      ensures DistinctIds(rs) ==> y.id != rs[0].id
    {
      var j :| 0 <= j < |rs[1..]| && rs[1..][j] == y;
      assert y == rs[j + 1];
    }
  }

  /** Inserts `x` after every entry whose name does not sort after its own. */
  function InsertByName(rs: seq<Recipe>, x: Recipe): (r: seq<Recipe>)
    requires OrderedByName(rs)
    ensures OrderedByName(r)
    ensures |r| == |rs| + 1
    ensures forall y :: y in r <==> y == x || y in rs
    ensures multiset(r) == multiset(rs) + multiset{x}
    ensures DistinctIds(rs) && (forall y | y in rs :: y.id != x.id) ==> DistinctIds(r)
    decreases |rs|
  {
    if rs == [] || NameBelow(x.name, rs[0].name) then
      forall y | y in rs ensures !NameBelow(y.name, x.name) {
        NameBelowIrreflexive(rs[0].name);
        if NameBelow(y.name, x.name) {
          NameBelowTransitive(y.name, x.name, rs[0].name);
        }
      }
      PrependOrdered(x, rs);
      PrependDistinct(x, rs);
      [x] + rs
    else
      TailFacts(rs);
      var rest := InsertByName(rs[1..], x);
      assert rs == [rs[0]] + rs[1..];
      PrependOrdered(rs[0], rest);
      PrependDistinct(rs[0], rest);
      [rs[0]] + rest
  }

  /** Evaluates `SELECT * FROM recipes WHERE c ORDER BY name` over `t`, reading each selected row into a recipe. */
  method SelectOrdered(t: Table, c: Criterion) returns (rs: seq<Recipe>)
    requires WellFormed(t)
    ensures ListsWhere(t, c, rs)
  {
    rs := [];
    var todo := t.Keys;
    while todo != {}
      invariant todo <= t.Keys
      invariant forall r | r in rs :: r.id in t && r.id !in todo && t[r.id] == r && Selects(c, r)
      invariant forall k | k in t && k !in todo && Selects(c, t[k]) :: t[k] in rs
      invariant DistinctIds(rs)
      invariant OrderedByName(rs)
      decreases todo
    {
      var k :| k in todo;
      var recipe := ReadRow(t[k]);
      if Selects(c, recipe) {
        rs := InsertByName(rs, recipe);
      }
      todo := todo - {k};
    }
  }

  /** Strictly ascending in binary order, hence without duplicates. */
  predicate StrictlyAscending(cs: seq<string>) {
    forall i, j | 0 <= i < j < |cs| :: Below(cs[i], cs[j])
  }

  /** Some row of `t` has category `c`. */
  ghost predicate HasCategory(t: Table, c: string) {
    exists k | k in t :: t[k].category == Some(c)
  }

  /** Adds `c` to a strictly ascending list unless it is already there. */
  function InsertCategory(cs: seq<string>, c: string): (r: seq<string>)
    requires StrictlyAscending(cs)
    ensures StrictlyAscending(r)
    ensures forall y :: y in r <==> y == c || y in cs
    decreases |cs|
  {
    if cs == [] || Below(c, cs[0]) then
      forall j | 0 < j < |cs| ensures Below(c, cs[j]) {
        BelowTransitive(c, cs[0], cs[j]);
      }
      [c] + cs
    else if c == cs[0] then cs
    else
      BelowTotal(c, cs[0]);
      var rest := InsertCategory(cs[1..], c);
      forall y | y in rest
        ensures Below(cs[0], y)
      {
        if y != c {
          var j :| 0 <= j < |cs[1..]| && cs[1..][j] == y;
          assert y == cs[j + 1];
        }
      }
      assert forall j | 1 <= j < |rest| + 1 :: ([cs[0]] + rest)[j] == rest[j - 1] && rest[j - 1] in rest;
      assert forall y | y in cs[1..] :: y in cs;
      [cs[0]] + rest
  }

  /** Evaluates `SELECT DISTINCT category FROM recipes WHERE category IS NOT NULL AND category != '' ORDER BY category`. */
  method DistinctCategories(t: Table) returns (cs: seq<string>)
    ensures StrictlyAscending(cs)
    ensures forall c :: c in cs <==> c != "" && HasCategory(t, c)
  {
    cs := [];
    var todo := t.Keys;
    while todo != {}
      invariant todo <= t.Keys
      invariant StrictlyAscending(cs)
      invariant forall c :: c in cs <==> c != "" && exists k | k in t && k !in todo :: t[k].category == Some(c)
      decreases todo
    {
      var k :| k in todo;
      var category := t[k].category;
      if category.Some? && category.value != "" {
        cs := InsertCategory(cs, category.value);
      }
      todo := todo - {k};
    }
  }
}
