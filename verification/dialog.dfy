/**
  The checks the recipe dialog applies before it hands a recipe to the DAO:
  the name field is trimmed and must not be empty, and the spinners bound
  the times to 0..999 minutes and the servings to 1..100.
 */
module Dialog {
  import opened Strings
  import opened Recipes

  /** Java's `trim()` treats every character up to the space as blank. */
  predicate IsBlank(c: char) {
    c <= ' '
  }

  /** Drops the blank characters at the start of `s`. */
  function DropLeading(s: string): (r: string)
    ensures |r| <= |s| && r == s[|s| - |r|..]
    ensures forall i | 0 <= i < |s| - |r| :: IsBlank(s[i])
    ensures r == [] || !IsBlank(r[0])
    decreases |s|
  {
    if s != [] && IsBlank(s[0]) then DropLeading(s[1..]) else s
  }

  /** Drops the blank characters at the end of `s`. */
  function DropTrailing(s: string): (r: string)
    ensures |r| <= |s| && r == s[..|r|]
    ensures forall i | |r| <= i < |s| :: IsBlank(s[i])
    ensures r == [] || !IsBlank(r[|r| - 1])
    decreases |s|
  {
    if s != [] && IsBlank(s[|s| - 1]) then DropTrailing(s[..|s| - 1]) else s
  }

  /** `r` is `s[i..j]`, and every character of `s` outside that slice is blank. */
  predicate BlankAround(s: string, r: string, i: nat, j: nat) {
    && i <= j <= |s|
    && r == s[i..j]
    && (forall k | 0 <= k < i :: IsBlank(s[k]))
    && (forall k | j <= k < |s| :: IsBlank(s[k]))
  }

  /** A prefix of a suffix of `s` is a slice of `s`; what follows the prefix inside the suffix follows the slice inside `s`. */
  lemma PrefixOfSuffix(s: string, a: string, r: string, i: nat)
    requires i <= |s| && a == s[i..]
    requires |r| <= |a| && r == a[..|r|]
    requires forall k | |r| <= k < |a| :: IsBlank(a[k])
    ensures r == s[i..i + |r|]
    ensures forall k | i + |r| <= k < |s| :: IsBlank(s[k])
  {
    forall k | i + |r| <= k < |s| ensures IsBlank(s[k]) {
      assert s[k] == a[k - i];
    }
  }

  /** Dropping blanks at both ends leaves nothing exactly when the text is blank throughout. */
  lemma TrimEmpty(s: string)
    ensures DropTrailing(DropLeading(s)) == [] <==> forall i | 0 <= i < |s| :: IsBlank(s[i])
  {
    if DropTrailing(DropLeading(s)) == [] {
      assert DropLeading(s) == [];
    }
  }

  /** Dropping blanks at both ends leaves a slice of the text, with only blanks around it. */
  lemma TrimSlice(s: string)
    ensures Contains(s, DropTrailing(DropLeading(s)))
    ensures exists i: nat, j: nat :: BlankAround(s, DropTrailing(DropLeading(s)), i, j)
  {
    var a := DropLeading(s);
    var r := DropTrailing(a);
    PrefixOfSuffix(s, a, r, |s| - |a|);
    assert BlankAround(s, r, |s| - |a|, |s| - |a| + |r|);
    assert r <= s[|s| - |a|..];
  }

  /** `String.trim()`: the text between the first and the last non-blank character. */
  function Trim(s: string): (r: string)
    ensures r == [] <==> forall i | 0 <= i < |s| :: IsBlank(s[i])
    ensures r != [] ==> !IsBlank(r[0]) && !IsBlank(r[|r| - 1])
    ensures Contains(s, r)
    ensures exists i: nat, j: nat :: BlankAround(s, r, i, j)
  {
    TrimEmpty(s);
    TrimSlice(s);
    DropTrailing(DropLeading(s))
  }

  /**
    A recipe as the dialog saves it: a trimmed non-empty name, and spinner values within bounds.
    The bounds hold for a new recipe, or for an edit of one already within them: when a recipe is
    loaded for editing, `setValue` puts its stored values into the spinners without a bounds check.
   */
  predicate SavedByDialog(r: Recipe) {
    && r.name.Some? && r.name.value == Trim(r.name.value) && r.name.value != []
    && 0 <= r.prepTime <= 999 && 0 <= r.cookTime <= 999
    && 1 <= r.servings <= 100
  }

  /** Within the spinner bounds the total time never wraps. */
  lemma DialogTotalTime(r: Recipe)
    requires SavedByDialog(r)
    ensures TotalTime(r) == r.prepTime + r.cookTime
    ensures 0 <= TotalTime(r) <= 1998
  {
  }
}
