/** The cookbook's data: ingredients and recipes, the errors the store can
    report, and the validity conditions the store is meant to keep. */
module Entries {

  datatype RequiredItem = RequiredItem(name: string, quantity: int)

  /** A cookbook entry: the two dataclasses that extend `CookbookEntry`. */
  datatype Entry =
    | Ingredient(name: string, cookTime: int)
    | Recipe(name: string, requiredItems: seq<RequiredItem>)

  /** The rejections of the store, one per error string `devdonalds.py` returns. */
  datatype Error =
    | DuplicateName(name: string)
    | UnsupportedType
    | MissingField
    | DuplicateRequiredItem
    | InvalidQuantity
    | InvalidCookTime

  /** The text the HTTP layer sends back with status 400.  It is never
      empty, and a duplicate-name message ends with the offending name. */
  function Message(e: Error): (m: string)
    ensures |m| > 0
    ensures e.DuplicateName? ==> |m| > |e.name| && m[|m| - |e.name|..] == e.name
  {
    match e
    case DuplicateName(n) => "Cookbook already has an entry with name " + n
    case UnsupportedType => "Type must be recipe or ingredient"
    case MissingField => "Recipe requiredItems missing name or quanitity"
    case DuplicateRequiredItem => "Recipe requiredItems can only have one element per name"
    case InvalidQuantity => "Quantity must be an integer greater than or equal to 1"
    case InvalidCookTime => "Cooktime must be an integer greater than or equal to 0"
  }

  /** No two required items of one recipe name the same entry. */
  predicate DistinctNames(items: seq<RequiredItem>)
  {
    forall i, j :: 0 <= i < j < |items| ==> items[i].name != items[j].name
  }

  /** The shape every required item of a stored recipe has. */
  predicate ValidItems(items: seq<RequiredItem>)
  {
    && DistinctNames(items)
    && (forall i :: 0 <= i < |items| ==> items[i].name != "" && items[i].quantity >= 1)
  }

  predicate ValidEntry(e: Entry)
  {
    match e
    case Ingredient(_, t) => t >= 0
    case Recipe(_, items) => ValidItems(items)
  }

  /** The catalogue-wide invariant: no two entries share a name. */
  predicate Unique(book: seq<Entry>)
  {
    forall i, j :: 0 <= i < j < |book| ==> book[i].name != book[j].name
  }

  predicate ValidBook(book: seq<Entry>)
  {
    forall i :: 0 <= i < |book| ==> ValidEntry(book[i])
  }
}
