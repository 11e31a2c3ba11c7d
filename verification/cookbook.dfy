/** The cookbook store: the first-match lookup and the insert path of
    `create_entry`, with the catalogue passed in and returned instead of
    held in a global list. */
module Cookbook {
  import opened Results
  import opened IntParse
  import opened Entries
  import opened Validation

  /** The fields of a POST /entry body the store reads.  `None` marks a
      field the body leaves out. */
  datatype Request = Request(
    name: string,
    typeTag: string,
    requiredItems: Option<seq<RawItem>>,
    cookTime: Option<Raw>)

  /** The cookbook after a request, and the error that rejected it, if any. */
  datatype Step = Step(book: seq<Entry>, error: Option<Error>)

  /** Entry `i` is the first in the cookbook called `name`. */
  ghost predicate FirstNamed(book: seq<Entry>, name: string, i: int)
  {
    && 0 <= i < |book|
    && book[i].name == name
    && forall j :: 0 <= j < i ==> book[j].name != name
  }

  /** The entries called `name`, in cookbook order (the list comprehension
      of `search_cookbook`). */
  function Matching(book: seq<Entry>, name: string): (r: seq<Entry>)
    ensures |r| <= |book|
    ensures forall e :: e in r ==> e in book && e.name == name
    ensures |r| == 0 <==> forall i :: 0 <= i < |book| ==> book[i].name != name
    ensures |r| > 0 ==> exists i :: FirstNamed(book, name, i) && r[0] == book[i]
  {
    if |book| == 0 then []
    else
      var rest := Matching(book[1..], name);
      if book[0].name == name then
        assert FirstNamed(book, name, 0);
        [book[0]] + rest
      else
        assert forall i :: 1 <= i < |book| ==> book[i] == book[1..][i - 1];
        rest
  }

  /** `search_cookbook`: the first entry called `name`, or `None` exactly
      when no entry has that name. */
  function Search(book: seq<Entry>, name: string): (r: Option<Entry>)
    ensures r.None? <==> forall i :: 0 <= i < |book| ==> book[i].name != name
    ensures r.Some? ==> exists i :: FirstNamed(book, name, i) && r.value == book[i]
  {
    var items := Matching(book, name);
    if |items| == 0 then None else Some(items[0])
  }

  /** In a cookbook without shared names, looking up an entry's name finds
      that entry. */
  lemma SearchUnique(book: seq<Entry>, i: int)
    requires Unique(book)
    requires 0 <= i < |book|
    ensures Search(book, book[i].name) == Some(book[i])
  {
    var r := Search(book, book[i].name);
    var k :| FirstNamed(book, book[i].name, k) && r.value == book[k];
    assert k == i;
  }

  /** Appending an entry leaves every other name's lookup as it was, and
      makes a fresh name find the new entry. */
  lemma SearchAppend(book: seq<Entry>, e: Entry, name: string)
    ensures name != e.name ==> Search(book + [e], name) == Search(book, name)
    ensures Search(book, e.name).None? ==> Search(book + [e], e.name) == Some(e)
  {
    var book' := book + [e];
    assert forall j :: 0 <= j < |book| ==> book'[j] == book[j];
    if name != e.name {
      var r, r' := Search(book, name), Search(book', name);
      if r'.Some? {
        var k :| FirstNamed(book', name, k) && r'.value == book'[k];
        assert k < |book|;
        assert FirstNamed(book, name, k);
        var m :| FirstNamed(book, name, m) && r.value == book[m];
        assert FirstNamed(book', name, m);
        assert k == m;
      }
    }
    if Search(book, e.name).None? {
      var r' := Search(book', e.name);
      assert book'[|book|].name == e.name;
      var k :| FirstNamed(book', e.name, k) && r'.value == book'[k];
      assert k == |book|;
    }
  }

  /** `requiredItems` defaults to `''`, and iterating over `''` visits
      nothing, so a recipe without the field has no required items. */
  function ItemsField(req: Request): (items: seq<RawItem>)
    ensures req.requiredItems.None? ==> CreateRecipe(req.name, items) == Success(Recipe(req.name, []))
    ensures req.requiredItems.Some? ==> items == req.requiredItems.value
  {
    match req.requiredItems
    case Some(items) => items
    case None => []
  }

  /** `cookTime` defaults to `''`, which never converts to an integer. */
  function CookTimeField(req: Request): (v: Raw)
    ensures req.cookTime.None? ==> IntValue(v) == None
    ensures req.cookTime.Some? ==> v == req.cookTime.value
  {
    match req.cookTime
    case Some(v) => v
    case None => Text("")
  }

  /** Appends a constructed entry, or keeps the cookbook and reports the
      constructor's error. */
  function Commit(book: seq<Entry>, built: Result<Entry, Error>): Step
  {
    match built
    case Success(e) => Step(book + [e], None)
    case Failure(err) => Step(book, Some(err))
  }

  /** `create_entry`: reject a name already in the cookbook whatever the
      type tag, then dispatch on the tag, then append the built entry. */
  function CreateEntry(book: seq<Entry>, req: Request): (r: Step)
    ensures Search(book, req.name).Some? ==> r == Step(book, Some(DuplicateName(req.name)))
    ensures Search(book, req.name).None? && req.typeTag != "recipe" && req.typeTag != "ingredient"
      ==> r == Step(book, Some(UnsupportedType))
    ensures r.error == Some(UnsupportedType) ==>
      Search(book, req.name).None? && req.typeTag != "recipe" && req.typeTag != "ingredient"
    ensures r.error.Some? ==> r.book == book
    ensures r.error.None? ==>
      && Search(book, req.name).None?
      && |r.book| == |book| + 1
      && r.book[..|book|] == book
      && r.book[|book|].name == req.name
      && ValidEntry(r.book[|book|])
      && (r.book[|book|].Recipe? <==> req.typeTag == "recipe")
    ensures Unique(book) ==> Unique(r.book)
    ensures ValidBook(book) ==> ValidBook(r.book)
  {
    if Search(book, req.name).Some? then
      Step(book, Some(DuplicateName(req.name)))
    else if req.typeTag == "recipe" then
      var r := Commit(book, CreateRecipe(req.name, ItemsField(req)));
      assert r.error.None? ==> r.book[..|book|] == book;
      r
    else if req.typeTag == "ingredient" then
      var r := Commit(book, CreateIngredient(req.name, CookTimeField(req)));
      assert r.error.None? ==> r.book[..|book|] == book;
      r
    else
      Step(book, Some(UnsupportedType))
  }

  /** For a fresh name, the tag selects the constructor and the request's
      outcome is that constructor's: the entry it builds is the one
      appended, and the error it reports is the one returned.  Absent
      fields take their defaults. */
  lemma CreateEntryFresh(book: seq<Entry>, req: Request)
    requires Search(book, req.name).None?
    ensures var r := CreateEntry(book, req); var t := IntValue(CookTimeField(req));
      req.typeTag == "ingredient" ==>
        && (r.error.None? <==> t.Some? && t.value >= 0)
        && (r.error.None? ==> r.book == book + [Ingredient(req.name, t.value)])
        && (r.error.Some? ==> r.error == Some(InvalidCookTime))
    ensures var r := CreateEntry(book, req); var items := ItemsField(req);
      req.typeTag == "recipe" ==>
        && (r.error.None? <==> forall k :: 0 <= k < |items| ==> Verdict(items, k).None?)
        && (r.error.Some? ==>
              exists k :: FirstRejected(items, k) && r.error == Some(Verdict(items, k).value))
        && (r.error.None? ==>
              && |r.book| == |book| + 1
              && r.book[|book|].Recipe?
              && |r.book[|book|].requiredItems| == |items|
              && forall i :: 0 <= i < |items| ==>
                   && r.book[|book|].requiredItems[i].name == items[i].name
                   && IntValue(items[i].quantity) == Some(r.book[|book|].requiredItems[i].quantity))
  {
  }

  /** Once a name is in the cookbook, every later request for it is
      rejected with `DuplicateName`, whatever its type, and changes
      nothing. */
  lemma DuplicateAfterCreate(book: seq<Entry>, req: Request, again: Request)
    requires CreateEntry(book, req).error.None?
    requires again.name == req.name
    ensures var after := CreateEntry(book, req).book;
      CreateEntry(after, again) == Step(after, Some(DuplicateName(req.name)))
  {
    var after := CreateEntry(book, req).book;
    assert after == book + [after[|book|]];
    SearchAppend(book, after[|book|], req.name);
  }

  /** After a successful insert the new name finds the new entry, and
      every other name finds what it found before. */
  lemma SearchAfterCreate(book: seq<Entry>, req: Request, name: string)
    requires CreateEntry(book, req).error.None?
    ensures var after := CreateEntry(book, req).book;
      && Search(after, req.name) == Some(after[|book|])
      && (name != req.name ==> Search(after, name) == Search(book, name))
  {
    var after := CreateEntry(book, req).book;
    assert after == book + [after[|book|]];
    SearchAppend(book, after[|book|], req.name);
    SearchAppend(book, after[|book|], name);
  }

  /** The cookbook after a sequence of requests, each applied in turn. */
  function Replay(book: seq<Entry>, reqs: seq<Request>): (after: seq<Entry>)
    ensures |book| <= |after| <= |book| + |reqs|
    ensures after[..|book|] == book
    decreases |reqs|
  {
    if |reqs| == 0 then book
    else
      var next := CreateEntry(book, reqs[0]).book;
      var after := Replay(next, reqs[1..]);
      assert after[..|book|] == after[..|next|][..|book|];
      after
  }

  /** Both invariants survive any request sequence. */
  lemma {:induction false} ReplayKeepsInvariants(book: seq<Entry>, reqs: seq<Request>)
    requires Unique(book) && ValidBook(book)
    ensures Unique(Replay(book, reqs)) && ValidBook(Replay(book, reqs))
    decreases |reqs|
  {
    if |reqs| > 0 {
      ReplayKeepsInvariants(CreateEntry(book, reqs[0]).book, reqs[1..]);
    }
  }

  /** Starting from the empty cookbook of process start, no sequence of
      requests produces two entries with one name or an invalid entry. */
  lemma ProcessLifetime(reqs: seq<Request>)
    ensures Unique(Replay([], reqs)) && ValidBook(Replay([], reqs))
  {
    ReplayKeepsInvariants([], reqs);
  }
}
