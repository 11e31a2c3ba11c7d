/** Worked requests against the model: cook-time and quantity edge cases,
    a name added twice, an unknown type tag, a recipe without items, and
    the cases where the per-item order of the recipe checks decides the
    error. */
module Scenarios {
  import opened Results
  import opened IntParse
  import opened Entries
  import opened Validation
  import opened Cookbook

  function IngredientRequest(name: string, cookTime: Raw): Request
  {
    Request(name, "ingredient", None, Some(cookTime))
  }

  function RecipeRequest(name: string, items: seq<RawItem>): Request
  {
    Request(name, "recipe", Some(items), None)
  }

  /** A cook time of -1, of "abc", or none at all is rejected; 0 is
      accepted. */
  lemma CookTimeExamples()
    ensures CreateIngredient("Eggs", Num(-1)) == Failure(InvalidCookTime)
    ensures CreateIngredient("Eggs", Text("abc")) == Failure(InvalidCookTime)
    ensures CreateEntry([], Request("Eggs", "ingredient", None, None)) == Step([], Some(InvalidCookTime))
    ensures CreateIngredient("Eggs", Num(0)) == Success(Ingredient("Eggs", 0))
    ensures CreateIngredient("Eggs", Text("0")) == Success(Ingredient("Eggs", 0))
  {
    GetIntSentinel();
    assert DigitsValue("0") == 0 by { assert "0"[..0] == ""; }
  }

  /** After "Eggs" is added, a second "Eggs" of either type is refused. */
  lemma EggsTwice()
    ensures CreateEntry([], IngredientRequest("Eggs", Num(5))) == Step([Ingredient("Eggs", 5)], None)
    ensures CreateEntry([Ingredient("Eggs", 5)], RecipeRequest("Eggs", []))
      == Step([Ingredient("Eggs", 5)], Some(DuplicateName("Eggs")))
    ensures CreateEntry([Ingredient("Eggs", 5)], Request("Eggs", "sauce", None, None))
      == Step([Ingredient("Eggs", 5)], Some(DuplicateName("Eggs")))
  {
    assert Search([Ingredient("Eggs", 5)], "Eggs").Some? by {
      SearchUnique([Ingredient("Eggs", 5)], 0);
    }
  }

  /** An unknown type tag is reported only for a fresh name. */
  lemma UnknownTypeFreshName()
    ensures CreateEntry([], Request("Soup", "sauce", None, None)) == Step([], Some(UnsupportedType))
  {
  }

  /** A recipe posted without `requiredItems` is stored with none. */
  lemma RecipeWithoutItemsField()
    ensures CreateEntry([], Request("Toast", "recipe", None, None)) == Step([Recipe("Toast", [])], None)
  {
    EmptyRecipe("Toast");
  }

  /** Two items called "Eggs" are refused as duplicates. */
  lemma DuplicatePair()
    ensures CreateRecipe("Omelette", [RawItem("Eggs", Num(2)), RawItem("Eggs", Num(1))])
      == Failure(DuplicateRequiredItem)
  {
    var items := [RawItem("Eggs", Num(2)), RawItem("Eggs", Num(1))];
    assert SharesName(items, 0) by { assert items[1].name == items[0].name; }
    FirstRejectedDecides("Omelette", items, 0);
  }

  /** A quantity of 0 is present, so it is not a missing field; it fails
      the quantity check. */
  lemma ZeroQuantity()
    ensures CreateRecipe("Omelette", [RawItem("Eggs", Num(0))]) == Failure(InvalidQuantity)
  {
    var items := [RawItem("Eggs", Num(0))];
    assert !SharesName(items, 0);
    FirstRejectedDecides("Omelette", items, 0);
  }

  /** The checks run item by item: a bad quantity on the first item is
      reported although a later pair of items shares a name. */
  lemma EarlierQuantityBeatsLaterDuplicate()
    ensures CreateRecipe("Cake", [RawItem("Flour", Num(0)), RawItem("Eggs", Num(1)), RawItem("Eggs", Num(2))])
      == Failure(InvalidQuantity)
  {
    var items := [RawItem("Flour", Num(0)), RawItem("Eggs", Num(1)), RawItem("Eggs", Num(2))];
    assert !SharesName(items, 0);
    FirstRejectedDecides("Cake", items, 0);
  }

  /** Likewise a bad quantity on the first item is reported although a
      later item lacks its quantity. */
  lemma EarlierQuantityBeatsLaterMissing()
    ensures CreateRecipe("Cake", [RawItem("Flour", Text("none")), RawItem("Eggs", Text(""))])
      == Failure(InvalidQuantity)
  {
    var items := [RawItem("Flour", Text("none")), RawItem("Eggs", Text(""))];
    assert !SharesName(items, 0);
    assert !WellFormed("none") by { assert !IsDigit("none"[0]); }
    FirstRejectedDecides("Cake", items, 0);
  }

  /** A valid recipe keeps its items, in order, with parsed quantities. */
  lemma ValidRecipe()
    ensures CreateRecipe("Cake", [RawItem("Batter", Num(1)), RawItem("Frosting", Text("2"))])
      == Success(Recipe("Cake", [RequiredItem("Batter", 1), RequiredItem("Frosting", 2)]))
  {
    var items := [RawItem("Batter", Num(1)), RawItem("Frosting", Text("2"))];
    assert DigitsValue("2") == 2 by { assert "2"[..0] == ""; }
    assert !SharesName(items, 0) && !SharesName(items, 1);
    assert IntValue(items[1].quantity) == Some(2);
    var r := CreateRecipe("Cake", items);
    assert Verdict(items, 0).None? && Verdict(items, 1).None?;
    var got := r.value.requiredItems;
    assert got[0] == RequiredItem("Batter", 1) && got[1] == RequiredItem("Frosting", 2);
    assert |got| == 2;
    assert got == [RequiredItem("Batter", 1), RequiredItem("Frosting", 2)];
    assert r == Success(Recipe("Cake", got));
  }
}
