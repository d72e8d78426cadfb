/** The effects the processor offers and the category each belongs to. The
    category only groups effects for display; it does not change what an
    effect does. */
module Effects {

  datatype Effect =
    | GlobalShuffle | BinedShuffle | LocalShuffle | BinedColorShuffle
    | Invert | Boost | GaussianBlur | Gradient

  datatype Category = Shuffles | Transforms | Creations

  /** Every effect, in declaration order (`Effect.allCases`). */
  const AllEffects: seq<Effect> :=
    [GlobalShuffle, BinedShuffle, LocalShuffle, BinedColorShuffle, Invert, Boost, GaussianBlur, Gradient]

  /** Every category, in declaration order (`Category.allCases`). */
  const AllCategories: seq<Category> := [Shuffles, Transforms, Creations]

  /** The display name of an effect; it is also the effect's identifier. */
  function RawValue(e: Effect): string
  {
    match e
    case GlobalShuffle => "Global Shuffle"
    case BinedShuffle => "Bined Shuffle"
    case LocalShuffle => "Local Shuffle"
    case BinedColorShuffle => "Color Shuffle"
    case Invert => "Invert"
    case Boost => "Boost"
    case GaussianBlur => "Gaussian Blur"
    case Gradient => "Gradient"
  }

  function CategoryName(c: Category): string
  {
    match c
    case Shuffles => "Shuffles"
    case Transforms => "Transforms"
    case Creations => "Creations"
  }

  /** The category of an effect: the four shuffles rearrange or repaint
      pixels, the transforms change the image in place, and the gradient
      creates a new one. */
  function CategoryOf(e: Effect): Category
  {
    match e
    case GlobalShuffle | BinedShuffle | LocalShuffle | BinedColorShuffle => Shuffles
    case Invert | Boost | GaussianBlur => Transforms
    case Gradient => Creations
  }

  /** The effects of category c, in declaration order. */
  function EffectsIn(effects: seq<Effect>, c: Category): (r: seq<Effect>)
    ensures |r| <= |effects|
    ensures forall e :: e in r <==> e in effects && CategoryOf(e) == c
  {
    if effects == [] then []
    else
      var rest := EffectsIn(effects[1..], c);
      assert effects == [effects[0]] + effects[1..];
      if CategoryOf(effects[0]) == c then [effects[0]] + rest else rest
  }

  /** The first four declared effects are the shuffles, the next three the
      transforms, and the last one the only creation. */
  lemma CategoryByPosition(k: nat)
    requires k < |AllEffects|
    ensures CategoryOf(AllEffects[k]) == Shuffles <==> k < 4
    ensures CategoryOf(AllEffects[k]) == Transforms <==> 4 <= k < 7
    ensures CategoryOf(AllEffects[k]) == Creations <==> k == 7
  {
  }

  /** allCases lists every effect exactly once. */
  lemma AllEffectsComplete(e: Effect)
    ensures multiset(AllEffects)[e] == 1
  {
  }

  /** No two effects share an identifier, and no two categories share a name. */
  lemma RawValuesDistinct(e1: Effect, e2: Effect, c1: Category, c2: Category)
    ensures RawValue(e1) == RawValue(e2) ==> e1 == e2
    ensures CategoryName(c1) == CategoryName(c2) ==> c1 == c2
  {
  }

  /** The category groups partition the effects: each effect is in the group
      of exactly one category. */
  lemma CategoriesPartition(e: Effect, c: Category)
    ensures e in EffectsIn(AllEffects, c) <==> c == CategoryOf(e)
  {
    AllEffectsComplete(e);
  }
}
