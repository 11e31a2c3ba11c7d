# Cookbook store — a Dafny model

This project models the cookbook store of the DevDonalds recruitment backend
(`backend/py_template/devdonalds.py`). The store keeps a catalogue of named
entries. Each entry is either an *ingredient* with a cook time, or a *recipe*
with an ordered list of required items, each a name and a quantity. The
`/entry` endpoint checks a posted entry and appends it to the catalogue. It
rejects a name that is already taken, an unknown type tag, a bad cook time,
and a badly formed item list.

The model is functional. The catalogue is a `seq<Entry>` that each operation
takes and returns, instead of the module-level list. Each rejection is an
`Error` value, not an HTTP 400 response.

| file | module | models |
|---|---|---|
| `results.dfy` | `Results` | `Option` and `Result` |
| `intparse.dfy` | `IntParse` | decoded JSON field values; `int(...)` on them; `getInt` with its -1 sentinel |
| `entries.dfy` | `Entries` | the `Ingredient` / `Recipe` / `RequiredItem` dataclasses; error kinds and their message texts; the validity and name-uniqueness invariants |
| `validation.dfy` | `Validation` | `create_ingredient` and `create_recipe` |
| `cookbook.dfy` | `Cookbook` | `search_cookbook` and the validate-and-append path of `create_entry` |
| `scenarios.dfy` | `Scenarios` | concrete requests and the outcomes the code gives them |

Points worth knowing:

- **Duplicate names in a recipe.** `create_recipe` runs its checks one item at
  a time. For each item, in list order, it first checks for an empty name or
  empty quantity. Then it checks whether the name appears more than once in
  the *whole* list. Then it checks for a quantity below 1. So the error
  reported belongs to the first item, in list order, that fails any check.
  It does not first check every item for missing fields, then the whole list
  for duplicates, then every quantity. `Scenarios.EarlierQuantityBeatsLaterDuplicate` and
  `Scenarios.EarlierQuantityBeatsLaterMissing` show inputs where the two
  readings disagree.
- **Empty entry names.** The code does not reject an empty entry name. A body
  without `name` creates an entry called `''`. The model does the same.
- **Missing `requiredItems`.** This field defaults to `''`, and iterating over
  `''` visits nothing. So a recipe posted without the field is stored with no
  required items (`Scenarios.RecipeWithoutItemsField`).
- **Missing fields inside an item.** Only the empty string counts as missing.
  A quantity of `0` is present and fails the quantity check
  (`Scenarios.ZeroQuantity`).

## Model

| member | source | states |
|---|---|---|
| `IntParse.ParseInt` | backend/py_template/devdonalds.py:113 | converting a string succeeds exactly on an optionally signed, non-empty run of at most 4300 digits (Python's default digit limit); the empty string (a missing field) never converts; without a leading `-` the value is at least 0 |
| `IntParse.ParseShowInt` | backend/py_template/devdonalds.py:113 | converting the decimal text of an integer gives that integer back when its numeral has at most 4300 digits, and fails for every longer numeral |
| `IntParse.IntValue` | backend/py_template/devdonalds.py:113 | `int(...)` on a decoded field: a JSON number converts to itself; the missing-field default `''` and a null, list or object never convert; converted text without a leading `-` is at least 0 |
| `IntParse.GetInt` | backend/py_template/devdonalds.py:110-115 | `getInt` returns the converted value when conversion succeeds and -1 otherwise; the result is -1 exactly when conversion fails or yields -1 |
| `IntParse.GetIntAtLeast` | backend/py_template/devdonalds.py:110-115 | for every bound of at least 0, `getInt(v) >= bound` holds exactly when `v` converts to an integer meeting the bound, so a failed parse and a value that is too small are rejected alike |
| `IntParse.GetIntSentinel` | backend/py_template/devdonalds.py:110-115 | a missing field, unparsable text, a null and a genuine -1 (as text or as a number) all give -1 |
| `Entries.Message` | backend/py_template/devdonalds.py:58-103 | each rejection has the exact, non-empty text the endpoint returns; the duplicate-name text ends with the offending name |
| `Validation.CreateIngredient` | backend/py_template/devdonalds.py:80-85 | an ingredient is built exactly when the cook time converts to an integer of at least 0; it has the given name and that value; otherwise the error is the cook-time error |
| `Validation.CountName` | backend/py_template/devdonalds.py:97 | the length of the `duplicates` list is at most the number of items, and is 0 exactly when no item carries the name |
| `Validation.ItemError` | backend/py_template/devdonalds.py:94-103 | the loop body's checks on one item yield only the missing-field, duplicate-item or quantity error; an item they let through has a non-empty name and a quantity that converts to at least 1 |
| `Validation.Validated` | backend/py_template/devdonalds.py:105 | the appended item keeps the posted name, and a quantity of at least 1 is the converted posted quantity |
| `Validation.ValidateFrom` | backend/py_template/devdonalds.py:93-105 | the item loop from position k succeeds exactly when no item from k on fails a check; on success it returns one validated item per input item, in order; on failure it returns the error of the first failing item from k on |
| `Validation.CountNameShared` | backend/py_template/devdonalds.py:97-98 | more than one item carries this item's name exactly when some other item in the full list has the same name |
| `Validation.ItemErrorIsVerdict` | backend/py_template/devdonalds.py:93-103 | the loop body's counting checks give the same error as the reference order: missing name or quantity, then a name shared with another item, then a quantity that does not convert to at least 1 |
| `Validation.CreateRecipe` | backend/py_template/devdonalds.py:89-107 | succeeds exactly when no item draws an error; otherwise returns the error of the first item, in list order, that draws one; on success it returns a recipe with the given name, one item per input item in the same order, each with the input name and its converted quantity, and the item names pairwise distinct and non-empty with every quantity at least 1 |
| `Validation.ValidatedItemsValid` | backend/py_template/devdonalds.py:97-105 | items that pass every check validate to pairwise-distinct, non-empty names with quantities of at least 1 that equal the converted input |
| `Validation.FirstRejectedDecides` | backend/py_template/devdonalds.py:93-103 | if item k is the first failing item, the recipe is rejected with item k's error, whatever later items contain |
| `Validation.EmptyRecipe` | backend/py_template/devdonalds.py:89-107 | an empty item list gives a recipe with no required items |
| `Cookbook.Matching` | backend/py_template/devdonalds.py:120 | the comprehension holds only catalogue entries with the queried name; it is empty exactly when no entry has the name; otherwise its head is the first such entry |
| `Cookbook.Search` | backend/py_template/devdonalds.py:119-125 | returns nothing exactly when no entry has the name; otherwise returns the first entry, in catalogue order, with that name |
| `Cookbook.SearchUnique` | backend/py_template/devdonalds.py:119-125 | in a catalogue without shared names, looking up any entry's name finds that entry |
| `Cookbook.SearchAppend` | backend/py_template/devdonalds.py:72 | appending an entry does not change lookups of other names, and makes a name that was absent find the new entry |
| `Cookbook.CreateEntry` | backend/py_template/devdonalds.py:53-76 | a taken name is rejected with the duplicate-name error whatever the type tag; an unknown tag is rejected only for a fresh name; every error leaves the catalogue unchanged; success appends exactly one valid entry at the end, with the posted name and a variant matching the tag; name uniqueness and entry validity are preserved |
| `Cookbook.ItemsField` | backend/py_template/devdonalds.py:63-64 | an absent `requiredItems` makes the recipe constructor succeed with no required items, so a recipe posted without the field is stored empty; a present list is used as posted |
| `Cookbook.CookTimeField` | backend/py_template/devdonalds.py:66 | an absent `cookTime` gives a value that never converts to an integer; a present one is used as posted |
| `Cookbook.CreateEntryFresh` | backend/py_template/devdonalds.py:60-74 | for a fresh name and the tag `ingredient`: success exactly when the cook time (default `''`) converts to at least 0, and then the catalogue gains exactly `Ingredient(name, that value)`; otherwise the cook-time error. For the tag `recipe`: success exactly when no item (default: none) draws an error, and then the one new entry is a recipe whose items keep the posted names, in order, with the converted quantities; otherwise the error of the first rejected item |
| `Cookbook.DuplicateAfterCreate` | backend/py_template/devdonalds.py:56-58 | after an entry is added, any later request with the same name is rejected as a duplicate, whatever its type, and leaves the catalogue unchanged |
| `Cookbook.SearchAfterCreate` | backend/py_template/devdonalds.py:71-72 | after a successful insert, the new name finds the new entry, and every other name finds what it found before |
| `Cookbook.Replay` | backend/py_template/devdonalds.py:31-76 | applying requests one after another to the shared list only appends: the catalogue before is a prefix of the catalogue after, which has at most one more entry per request |
| `Cookbook.ReplayKeepsInvariants` | backend/py_template/devdonalds.py:53-76 | over any sequence of requests, the catalogue keeps both name uniqueness and entry validity |
| `Cookbook.ProcessLifetime` | backend/py_template/devdonalds.py:31 | starting from the empty catalogue, no sequence of requests produces two entries with one name or an invalid entry |
| `Scenarios.CookTimeExamples` | backend/py_template/devdonalds.py:80-85 | a cook time of -1, of "abc" or none at all is rejected; 0 (as a number or as text) is accepted |
| `Scenarios.EggsTwice` | backend/py_template/devdonalds.py:56-58 | after "Eggs" is added as an ingredient, a second "Eggs" is refused, both as a recipe and with an unknown tag |
| `Scenarios.UnknownTypeFreshName` | backend/py_template/devdonalds.py:68-69 | an unknown type tag on a fresh name gives the unsupported-type error |
| `Scenarios.RecipeWithoutItemsField` | backend/py_template/devdonalds.py:63-64 | a recipe posted without `requiredItems` is stored with no required items |
| `Scenarios.DuplicatePair` | backend/py_template/devdonalds.py:97-99 | two items named "Eggs" are refused as duplicates |
| `Scenarios.ZeroQuantity` | backend/py_template/devdonalds.py:94-103 | a quantity of 0 is not a missing field; it fails the quantity check |
| `Scenarios.EarlierQuantityBeatsLaterDuplicate` | backend/py_template/devdonalds.py:93-103 | a bad quantity on the first item is reported even though a later pair of items shares a name |
| `Scenarios.EarlierQuantityBeatsLaterMissing` | backend/py_template/devdonalds.py:93-103 | a bad quantity on the first item is reported even though a later item has no quantity |
| `Scenarios.ValidRecipe` | backend/py_template/devdonalds.py:101-107 | a valid recipe keeps its items in order, with quantities converted from a number and from text |

## Left out

- HTTP plumbing is not modelled. This covers the Flask app, routes, `request.get_json`, `jsonify`, status codes and `app.run` (lines 28-41, 136-141). Errors are `Error` values. `Entries.Message` records the exact text the endpoint sends with each 400.
- `parse_handwriting` is not modelled. It is a stub that returns its input, so the code has no name-normalisation rules to model.
- `summary` is not modelled. It is a stub that returns `'not implemented'`, so the code has no recipe resolver, cook-time total or ingredient flattening to model.
- IntParse.ParseInt: models Python's `int(str)` only for an optional `+`/`-` followed by ASCII digits. It does not model surrounding whitespace, underscores between digits, or non-ASCII digits, which Python also accepts.
- IntParse.ParseInt: the 4300-digit limit is Python's default from 3.10.7 and 3.11 on. A different limit set through `sys.set_int_max_str_digits` or `PYTHONINTMAXSTRDIGITS`, and older interpreters without the limit, are not modelled.
- IntParse.IntValue: JSON floats are not modelled (`int(2.5)` truncates to 2). Booleans are modelled as 0 and 1. Null, lists and objects are `Other`, on which `int(...)` raises. A JSON number longer than the digit limit is refused by the JSON decoder before the store runs, which is not modelled.
- Non-string `name` fields are not modelled. Names are strings, with `''` for a missing name.
- Malformed JSON shapes that make `create_recipe` crash are not modelled. Examples are a `requiredItems` that is a non-empty string or a number, or an item that is not an object. The Python code defines no result for these.
- Concurrency on the shared list is not modelled. Requests are applied one at a time (`Cookbook.Replay`).
