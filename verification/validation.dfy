/** The two constructors that turn raw request fields into entries:
    `create_ingredient` and `create_recipe`. */
module Validation {
  import opened Results
  import opened IntParse
  import opened Entries

  // ---- create_ingredient ----

  /** An ingredient is built exactly when the cook time converts to an
      integer of at least 0; a missing cook time (`''`) is rejected. */
  function CreateIngredient(name: string, cookTime: Raw): (r: Result<Entry, Error>)
    ensures r.Success? <==> IntValue(cookTime).Some? && IntValue(cookTime).value >= 0
    ensures r.Success? ==> r.value == Ingredient(name, IntValue(cookTime).value)
    ensures r.Failure? ==> r.error == InvalidCookTime
  {
    var t := GetInt(cookTime);
    if t < 0 then Failure(InvalidCookTime) else Success(Ingredient(name, t))
  }

  // ---- create_recipe ----

  /** One element of `requiredItems` as posted, with `''` standing in for
      a missing name or quantity. */
  datatype RawItem = RawItem(name: string, quantity: Raw)

  /** Some posted item carries the name `n`. */
  predicate Mentions(items: seq<RawItem>, n: string)
  {
    exists j :: 0 <= j < |items| && items[j].name == n
  }

  /** How many posted items carry the name `n` (the length of the
      `duplicates` list). */
  function CountName(items: seq<RawItem>, n: string): (c: nat)
    ensures c <= |items|
    ensures c == 0 <==> !Mentions(items, n)
  {
    if |items| == 0 then 0
    else (if items[0].name == n then 1 else 0) + CountName(items[1..], n)
  }

  /** The loop body's three checks on item `k`, in the order `create_recipe`
      applies them. */
  function ItemError(items: seq<RawItem>, k: nat): (r: Option<Error>)
    requires k < |items|
    ensures r.Some? ==> r.value in {MissingField, DuplicateRequiredItem, InvalidQuantity}
    ensures r.None? ==> items[k].name != "" && IntValue(items[k].quantity).Some?
                        && IntValue(items[k].quantity).value >= 1
  {
    var it := items[k];
    if it.name == "" || it.quantity == Text("") then Some(MissingField)
    else if CountName(items, it.name) > 1 then Some(DuplicateRequiredItem)
    else if GetInt(it.quantity) < 1 then Some(InvalidQuantity)
    else None
  }

  /** The validated form of an item the checks let through. */
  function Validated(it: RawItem): (r: RequiredItem)
    ensures r.name == it.name
    ensures r.quantity >= 1 ==> IntValue(it.quantity) == Some(r.quantity)
  {
    RequiredItem(it.name, GetInt(it.quantity))
  }

  /** The loop from item `k` on: the validated suffix, or the error of the
      first item from `k` on that fails a check. */
  function ValidateFrom(items: seq<RawItem>, k: nat): (r: Result<seq<RequiredItem>, Error>)
    requires k <= |items|
    ensures r.Success? <==> forall j :: k <= j < |items| ==> ItemError(items, j).None?
    ensures r.Failure? ==>
      exists j :: k <= j < |items| && ItemError(items, j) == Some(r.error)
               && forall i :: k <= i < j ==> ItemError(items, i).None?
    ensures r.Success? ==>
      && |r.value| == |items| - k
      && forall i :: 0 <= i < |r.value| ==> r.value[i] == Validated(items[k + i])
    decreases |items| - k
  {
    if k == |items| then Success([])
    else match ItemError(items, k)
      case Some(e) => Failure(e)
      case None =>
        match ValidateFrom(items, k + 1)
        case Failure(e) => Failure(e)
        case Success(rest) => Success([Validated(items[k])] + rest)
  }

  // ---- the order of the checks, stated without the counting loop ----

  /** Some other posted item has the same name as item `k`. */
  ghost predicate SharesName(items: seq<RawItem>, k: nat)
    requires k < |items|
  {
    exists j :: 0 <= j < |items| && j != k && items[j].name == items[k].name
  }

  /** The error item `k` draws, if any: a missing name or quantity first,
      then a name shared with any other item of the whole list, then a
      quantity that does not convert to an integer of at least 1. */
  ghost function Verdict(items: seq<RawItem>, k: nat): Option<Error>
    requires k < |items|
  {
    var it := items[k];
    if it.name == "" || it.quantity == Text("") then Some(MissingField)
    else if SharesName(items, k) then Some(DuplicateRequiredItem)
    else if !(IntValue(it.quantity).Some? && IntValue(it.quantity).value >= 1) then Some(InvalidQuantity)
    else None
  }

  /** Item `k` is the first, in list order, that draws an error. */
  ghost predicate FirstRejected(items: seq<RawItem>, k: nat)
  {
    && k < |items|
    && Verdict(items, k).Some?
    && forall j :: 0 <= j < k ==> Verdict(items, j).None?
  }

  lemma {:induction false} CountNameAppend(a: seq<RawItem>, b: seq<RawItem>, n: string)
    ensures CountName(a + b, n) == CountName(a, n) + CountName(b, n)
    decreases |a|
  {
    if |a| == 0 {
      assert a + b == b;
    } else {
      assert (a + b)[1..] == a[1..] + b;
      CountNameAppend(a[1..], b, n);
    }
  }

  /** Item `k` contributes one to the count of its own name; the rest
      comes from the items before and after it. */
  lemma CountNameAround(items: seq<RawItem>, k: nat)
    requires k < |items|
    ensures CountName(items, items[k].name)
      == CountName(items[..k], items[k].name) + 1 + CountName(items[k + 1..], items[k].name)
  {
    var n := items[k].name;
    var before, rest := items[..k], items[k..];
    assert items == before + rest;
    CountNameAppend(before, rest, n);
    assert rest[0] == items[k] && rest[1..] == items[k + 1..];
  }

  /** Counting more than one item of the same name is exactly having a
      second item of that name somewhere else in the list. */
  lemma CountNameShared(items: seq<RawItem>, k: nat)
    requires k < |items|
    ensures CountName(items, items[k].name) > 1 <==> SharesName(items, k)
  {
    var n := items[k].name;
    var before, after := items[..k], items[k + 1..];
    CountNameAround(items, k);
    if SharesName(items, k) {
      var j :| 0 <= j < |items| && j != k && items[j].name == n;
      if j < k {
        assert before[j].name == n;
      } else {
        assert after[j - k - 1].name == n;
      }
    }
    if Mentions(before, n) {
      var j :| 0 <= j < |before| && before[j].name == n;
      assert items[j].name == n;
    } else if Mentions(after, n) {
      var j :| 0 <= j < |after| && after[j].name == n;
      assert items[k + 1 + j].name == n;
    }
  }

  /** The loop body's checks draw exactly the error of the reference
      reading. */
  lemma ItemErrorIsVerdict(items: seq<RawItem>, k: nat)
    requires k < |items|
    ensures ItemError(items, k) == Verdict(items, k)
  {
    CountNameShared(items, k);
    GetIntAtLeast(items[k].quantity, 1);
  }

  lemma ItemErrorsAreVerdicts(items: seq<RawItem>)
    ensures forall k :: 0 <= k < |items| ==> ItemError(items, k) == Verdict(items, k)
  {
    forall k | 0 <= k < |items|
      ensures ItemError(items, k) == Verdict(items, k)
    {
      ItemErrorIsVerdict(items, k);
    }
  }

  /** `create_recipe`: a recipe with one validated item per posted item,
      in the posted order, or the error of the first item that fails. */
  function CreateRecipe(name: string, items: seq<RawItem>): (r: Result<Entry, Error>)
    ensures r.Success? <==> forall k :: 0 <= k < |items| ==> Verdict(items, k).None?
    ensures r.Failure? ==> exists k :: FirstRejected(items, k) && r.error == Verdict(items, k).value
    ensures r.Success? ==>
      && r.value.Recipe?
      && r.value.name == name
      && |r.value.requiredItems| == |items|
      && (forall i :: 0 <= i < |items| ==>
            && r.value.requiredItems[i].name == items[i].name
            && IntValue(items[i].quantity) == Some(r.value.requiredItems[i].quantity))
      && ValidItems(r.value.requiredItems)
  {
    ItemErrorsAreVerdicts(items);
    match ValidateFrom(items, 0)
    case Failure(e) => Failure(e)
    case Success(validated) =>
      ValidatedItemsValid(items, validated);
      Success(Recipe(name, validated))
  }

  /** Items that pass every check validate to distinct, named items of
      quantity at least 1 that keep the posted names and values. */
  lemma ValidatedItemsValid(items: seq<RawItem>, validated: seq<RequiredItem>)
    requires forall k :: 0 <= k < |items| ==> Verdict(items, k).None?
    requires |validated| == |items|
    requires forall i :: 0 <= i < |items| ==> validated[i] == Validated(items[i])
    ensures ValidItems(validated)
    ensures forall i :: 0 <= i < |items| ==> IntValue(items[i].quantity) == Some(validated[i].quantity)
  {
    forall i, j | 0 <= i < j < |validated|
      ensures validated[i].name != validated[j].name
    {
      assert Verdict(items, i).None?;
      assert !SharesName(items, i);
    }
    forall i | 0 <= i < |items|
      ensures validated[i].name != "" && validated[i].quantity >= 1
      ensures IntValue(items[i].quantity) == Some(validated[i].quantity)
    {
      assert Verdict(items, i).None?;
    }
  }

  /** The error of the first failing item wins over every later one. */
  lemma FirstRejectedDecides(name: string, items: seq<RawItem>, k: nat)
    requires FirstRejected(items, k)
    ensures CreateRecipe(name, items) == Failure(Verdict(items, k).value)
  {
    var r := CreateRecipe(name, items);
    assert r.Failure?;
    var k': nat :| FirstRejected(items, k') && r.error == Verdict(items, k').value;
    assert k' == k;
  }

  /** An empty item list makes a recipe with no required items. */
  lemma EmptyRecipe(name: string)
    ensures CreateRecipe(name, []) == Success(Recipe(name, []))
  {
  }
}
