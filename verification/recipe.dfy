/**
  The `Recipe` record: eleven properties, Java's zero/null/false defaults,
  the two constructors, the getters and setters, the derived total time and
  the string form. Getters and setters are modelled once, indexed by `Field`.
 */
module Recipes {
  import opened Wrappers
  import opened JavaInt

  /** A Java `String` property, None when it is null. */
  type Text = Option<string>

  datatype Recipe = Recipe(
    id: Int32,
    name: Text,
    category: Text,
    prepTime: Int32,
    cookTime: Int32,
    servings: Int32,
    difficulty: Text,
    ingredients: Text,
    instructions: Text,
    notes: Text,
    favorite: bool)

  /** The eleven properties of a recipe, which are also the columns of the `recipes` table. */
  datatype Field =
    | Id | Name | Category | PrepTime | CookTime | Servings
    | Difficulty | Ingredients | Instructions | Notes | Favorite

  /** The value of one property: a Java `int`, a `String` or a `boolean`. */
  datatype Value = IntValue(i: Int32) | TextValue(t: Text) | BoolValue(b: bool)

  /** `v` has the Java type of property `f`. */
  predicate Fits(f: Field, v: Value) {
    match f
    case Id | PrepTime | CookTime | Servings => v.IntValue?
    case Favorite => v.BoolValue?
    case _ => v.TextValue?
  }

  /** The value Java gives a field that was never assigned: 0, null or false. */
  function Default(f: Field): (v: Value)
    ensures Fits(f, v)
  {
    match f
    case Id | PrepTime | CookTime | Servings => IntValue(0)
    case Favorite => BoolValue(false)
    case _ => TextValue(None)
  }

  /** The getter of property `f` (`getName()`, `isFavorite()`, ...). */
  function Get(r: Recipe, f: Field): (v: Value)
    ensures Fits(f, v)
  {
    match f
    case Id => IntValue(r.id)
    case Name => TextValue(r.name)
    case Category => TextValue(r.category)
    case PrepTime => IntValue(r.prepTime)
    case CookTime => IntValue(r.cookTime)
    case Servings => IntValue(r.servings)
    case Difficulty => TextValue(r.difficulty)
    case Ingredients => TextValue(r.ingredients)
    case Instructions => TextValue(r.instructions)
    case Notes => TextValue(r.notes)
    case Favorite => BoolValue(r.favorite)
  }

  /** The setter of property `f` (`setName(..)`, `setFavorite(..)`, ...). */
  function Set(r: Recipe, f: Field, v: Value): (r': Recipe)
    requires Fits(f, v)
    ensures Get(r', f) == v
    ensures forall g | g != f :: Get(r', g) == Get(r, g)
  {
    match f
    case Id => r.(id := v.i)
    case Name => r.(name := v.t)
    case Category => r.(category := v.t)
    case PrepTime => r.(prepTime := v.i)
    case CookTime => r.(cookTime := v.i)
    case Servings => r.(servings := v.i)
    case Difficulty => r.(difficulty := v.t)
    case Ingredients => r.(ingredients := v.t)
    case Instructions => r.(instructions := v.t)
    case Notes => r.(notes := v.t)
    case Favorite => r.(favorite := v.b)
  }

  /** Two recipes on which every getter agrees are the same recipe. */
  lemma Extensionality(a: Recipe, b: Recipe)
    requires forall f :: Get(a, f) == Get(b, f)
    ensures a == b
  {
    assert Get(a, Id) == Get(b, Id);
    assert Get(a, Name) == Get(b, Name);
    assert Get(a, Category) == Get(b, Category);
    assert Get(a, PrepTime) == Get(b, PrepTime);
    assert Get(a, CookTime) == Get(b, CookTime);
    assert Get(a, Servings) == Get(b, Servings);
    assert Get(a, Difficulty) == Get(b, Difficulty);
    assert Get(a, Ingredients) == Get(b, Ingredients);
    assert Get(a, Instructions) == Get(b, Instructions);
    assert Get(a, Notes) == Get(b, Notes);
    assert Get(a, Favorite) == Get(b, Favorite);
  }

  /** Setting a property to the value its getter returns changes nothing. */
  lemma SetCurrentValue(r: Recipe, f: Field)
    ensures Set(r, f, Get(r, f)) == r
  {
    Extensionality(Set(r, f, Get(r, f)), r);
  }

  /** Of two writes to the same property, the last one wins. */
  lemma SetTwice(r: Recipe, f: Field, v: Value, w: Value)
    requires Fits(f, v) && Fits(f, w)
    ensures Set(Set(r, f, v), f, w) == Set(r, f, w)
  {
    Extensionality(Set(Set(r, f, v), f, w), Set(r, f, w));
  }

  /** Writes to different properties commute. */
  lemma SetCommutes(r: Recipe, f: Field, g: Field, v: Value, w: Value)
    requires Fits(f, v) && Fits(g, w)
    requires f != g
    ensures Set(Set(r, f, v), g, w) == Set(Set(r, g, w), f, v)
  {
    Extensionality(Set(Set(r, f, v), g, w), Set(Set(r, g, w), f, v));
  }

  /** `new Recipe()`: every property holds its Java default. */
  function Blank(): (r: Recipe)
    ensures forall f :: Get(r, f) == Default(f)
  {
    Recipe(0, None, None, 0, 0, 0, None, None, None, None, false)
  }

  /** The eleven-argument constructor: every argument is stored in its property. */
  function Full(id: Int32, name: Text, category: Text, prepTime: Int32, cookTime: Int32,
                servings: Int32, difficulty: Text, ingredients: Text, instructions: Text,
                notes: Text, favorite: bool): (r: Recipe)
    ensures Get(r, Id) == IntValue(id)
    ensures Get(r, Name) == TextValue(name) && Get(r, Category) == TextValue(category)
    ensures Get(r, PrepTime) == IntValue(prepTime) && Get(r, CookTime) == IntValue(cookTime)
    ensures Get(r, Servings) == IntValue(servings) && Get(r, Difficulty) == TextValue(difficulty)
    ensures Get(r, Ingredients) == TextValue(ingredients) && Get(r, Instructions) == TextValue(instructions)
    ensures Get(r, Notes) == TextValue(notes) && Get(r, Favorite) == BoolValue(favorite)
  {
    Recipe(id, name, category, prepTime, cookTime, servings, difficulty, ingredients,
           instructions, notes, favorite)
  }

  /**
    The eight-argument constructor: the eight arguments are stored, and the
    id, notes and favorite flag keep the defaults of a blank recipe.
   */
  function Draft(name: Text, category: Text, prepTime: Int32, cookTime: Int32,
                 servings: Int32, difficulty: Text, ingredients: Text, instructions: Text): (r: Recipe)
    ensures r == Full(0, name, category, prepTime, cookTime, servings, difficulty,
                      ingredients, instructions, None, false)
    ensures forall f | f in {Id, Notes, Favorite} :: Get(r, f) == Get(Blank(), f)
  {
    var r := Set(Blank(), Name, TextValue(name));
    var r := Set(r, Category, TextValue(category));
    var r := Set(r, PrepTime, IntValue(prepTime));
    var r := Set(r, CookTime, IntValue(cookTime));
    var r := Set(r, Servings, IntValue(servings));
    var r := Set(r, Difficulty, TextValue(difficulty));
    var r := Set(r, Ingredients, TextValue(ingredients));
    Set(r, Instructions, TextValue(instructions))
  }

  /** Every recipe is what the eleven-argument constructor builds from its own getters. */
  lemma FullFromGetters(r: Recipe)
    ensures Full(r.id, r.name, r.category, r.prepTime, r.cookTime, r.servings, r.difficulty,
                 r.ingredients, r.instructions, r.notes, r.favorite) == r
  {
  }

  /** `getTotalTime()`: preparation plus cooking time, in Java `int` arithmetic. */
  function TotalTime(r: Recipe): (t: Int32)
    ensures InRange(r.prepTime + r.cookTime) ==> t == r.prepTime + r.cookTime
    ensures (r.prepTime + r.cookTime - t) % MODULUS == 0
    ensures 0 <= r.prepTime && 0 <= r.cookTime ==> (0 <= t <==> r.prepTime + r.cookTime <= MAX_INT)
  {
    Add(r.prepTime, r.cookTime)
  }

  /** Large times wrap: two halves of 2^31 minutes give a negative total. */
  lemma TotalTimeWraps()
    ensures TotalTime(Recipe(0, None, None, 0x4000_0000, 0x4000_0000, 0, None, None, None, None, false)) < 0
  {
  }

  /** `toString()`: the recipe's name, null when the name is null. */
  function ToString(r: Recipe): (s: Text)
    ensures Get(r, Name) == TextValue(s)
  {
    r.name
  }
}
