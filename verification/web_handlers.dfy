/** The two checks of cmd/web/handlers.go that decide before any storage
    is touched: the ID guard of `postView` and the validation block of
    `postCreate`. Unlike the `Validator`, `postCreate` writes its field
    errors straight into a map, so a later message for a field replaces an
    earlier one. */
module WebHandlers {
  import opened Wrappers
  import opened Strings
  import opened Validator
  import opened Entities
  import PostUseCases

  // ---------------------------------------------------------------------------
  // postView
  // ---------------------------------------------------------------------------

  /** The guard of `postView`: the path value must parse with `strconv.Atoi`
      and be at least 1; anything else is answered "not found". */
  function ViewID(raw: string): (r: Option<int>)
    ensures r.Some? ==> 1 <= r.value <= MaxInt64
    ensures r.None? <==> Atoi(raw).None? || Atoi(raw).value < 1
    ensures r.Some? ==> Atoi(raw) == r
  {
    match Atoi(raw)
    case None => None
    case Some(id) => if id < 1 then None else Some(id)
  }

  /** Every ID the strict `ValidateID` accepts reaches `postView`'s lookup
      with the same value. */
  lemma ViewIDAcceptsValidID(raw: string)
    requires ValidateID(raw).err.None?
    ensures ViewID(raw) == Some(ValidateID(raw).id)
  {
    var n := ValidateID(raw).id;
    AtoiItoa(n);
  }

  /** Every positive int64 written in decimal is looked up as itself. */
  lemma ViewIDAcceptsRendering(n: int)
    requires 1 <= n <= MaxInt64
    ensures ViewID(IntToString(n)) == Some(n)
  {
    AtoiItoa(n);
  }

  /** The guard is looser than `ValidateID`: a sign or leading zeros still
      reach the lookup. The cases of the handler tests are refused. */
  lemma ViewIDExamples()
    ensures ViewID("01") == Some(1) && ValidateID("01").err.Some?
    ensures ViewID("+1") == Some(1) && ValidateID("+1").err.Some?
    ensures ViewID("1") == Some(1)
    ensures ViewID("-1") == None && ViewID("0") == None
    ensures ViewID("1.23") == None && ViewID("foo") == None && ViewID("") == None
  {
    assert "01"[1..] == "1";
    assert AllDigits("01");
    assert "+1"[1..] == "1";
    assert AllDigits("1");
    assert "-1"[1..] == "1";
    assert AllDigits("0");
    assert !IsDigit("1.23"[1]);
    assert !IsDigit("foo"[0]);
    ValidateIDExamples();
  }

  // ---------------------------------------------------------------------------
  // postCreate
  // ---------------------------------------------------------------------------

  /** `postCreateForm`. */
  datatype WebPostForm = WebPostForm(title: string, content: string, categories: seq<int>,
                                     fieldErrors: map<string, string>)

  /** The category that is ticked when no selected one is known. */
  const DefaultCategory: int := 1
  /** Every post of this handler is inserted for user 1. */
  const WebUserID: int := 1
  const StatusBadRequest: int := 400

  /** The reference reading of the "categories" values: each parsed by
      `strconv.Atoi`, or nothing when one of them does not parse. */
  function AtoiAll(raw: seq<string>): (r: Option<seq<int>>)
    ensures r.None? <==> exists i :: 0 <= i < |raw| && Atoi(raw[i]).None?
    ensures r.Some? ==> |r.value| == |raw| && forall i :: 0 <= i < |raw| ==> Atoi(raw[i]) == Some(r.value[i])
  {
    if forall i :: 0 <= i < |raw| ==> Atoi(raw[i]).Some? then
      Some(seq(|raw|, i requires 0 <= i < |raw| => Atoi(raw[i]).value))
    else None
  }

  /** The parse loop over the "categories" form values: the first value
      `strconv.Atoi` rejects ends the request with 400 (`None`). */
  method ParseCategoryIDs(raw: seq<string>) returns (r: Option<seq<int>>)
    ensures r.None? <==> exists i :: 0 <= i < |raw| && Atoi(raw[i]).None?
    ensures r.Some? ==> |r.value| == |raw| && forall i :: 0 <= i < |raw| ==> Atoi(raw[i]) == Some(r.value[i])
    ensures r == AtoiAll(raw)
  {
    var ids: seq<int> := [];
    var i := 0;
    while i < |raw|
      invariant 0 <= i <= |raw|
      invariant |ids| == i
      invariant forall j :: 0 <= j < i ==> Atoi(raw[j]) == Some(ids[j])
    {
      var a := Atoi(raw[i]);
      if a.None? {
        return None;
      }
      ids := ids + [a.value];
      i := i + 1;
    }
    assert ids == AtoiAll(raw).value;
    return Some(ids);
  }

  /** The category loop: keep the known IDs in order, and write the
      "invalid" message for every unknown one. */
  function ScanWebCategories(cs: seq<int>, known: set<int>, fe: map<string, string>): (r: (seq<int>, map<string, string>))
    ensures r.0 == PostUseCases.KnownOnly(cs, known)
    ensures r.1 == if PostUseCases.HasUnknown(cs, known) then fe[PostUseCases.CategoriesKey := PostUseCases.InvalidCategory] else fe
  {
    if cs == [] then ([], fe)
    else
      var fe1 := if cs[0] in known then fe else fe[PostUseCases.CategoriesKey := PostUseCases.InvalidCategory];
      var rest := ScanWebCategories(cs[1..], known, fe1);
      PostUseCases.HasUnknownStep(cs, known);
      ((if cs[0] in known then [cs[0]] else []) + rest.0, rest.1)
  }

  /** The validation block of `postCreate`, given the parsed IDs and the
      IDs of the stored categories. */
  function ValidateWebForm(title: string, content: string, ids: seq<int>, known: set<int>): (form: WebPostForm)
    ensures form.title == title && form.content == content
    ensures form.fieldErrors.Keys <= {PostUseCases.TitleKey, PostUseCases.ContentKey, PostUseCases.CategoriesKey}
    ensures PostUseCases.TitleKey in form.fieldErrors <==> TrimSpace(title) == "" || |title| > PostUseCases.MaxTitleRunes
    ensures PostUseCases.TitleKey in form.fieldErrors ==>
              form.fieldErrors[PostUseCases.TitleKey] ==
                if TrimSpace(title) == "" then PostUseCases.BlankMessage else PostUseCases.TooLongMessage
    ensures PostUseCases.ContentKey in form.fieldErrors <==> TrimSpace(content) == ""
    ensures PostUseCases.ContentKey in form.fieldErrors ==> form.fieldErrors[PostUseCases.ContentKey] == PostUseCases.BlankMessage
    ensures PostUseCases.CategoriesKey in form.fieldErrors <==> ids == [] || PostUseCases.HasUnknown(ids, known)
    ensures PostUseCases.CategoriesKey in form.fieldErrors ==>
              form.fieldErrors[PostUseCases.CategoriesKey] ==
                if ids == [] then PostUseCases.NeedCategory else PostUseCases.InvalidCategory
    ensures ids == [] ==> form.categories == []
    ensures ids != [] ==> forall c :: c in form.categories ==> c in known || c == DefaultCategory
  {
    var fe: map<string, string> := map[];
    var fe := if TrimSpace(title) == "" then fe[PostUseCases.TitleKey := PostUseCases.BlankMessage]
              else if |title| > PostUseCases.MaxTitleRunes then fe[PostUseCases.TitleKey := PostUseCases.TooLongMessage]
              else fe;
    var fe := if TrimSpace(content) == "" then fe[PostUseCases.ContentKey := PostUseCases.BlankMessage] else fe;
    if ids == [] then WebPostForm(title, content, ids, fe[PostUseCases.CategoriesKey := PostUseCases.NeedCategory])
    else
      var (kept, fe) := ScanWebCategories(ids, known, fe);
      WebPostForm(title, content, if |kept| > 0 then kept else [DefaultCategory], fe)
  }

  /** The selection after validation: the known IDs in order when there are
      any, category 1 when there are none, and the empty selection kept. */
  lemma WebCategoriesSelection(title: string, content: string, ids: seq<int>, known: set<int>)
    ensures var form := ValidateWebForm(title, content, ids, known);
            && (ids != [] && !PostUseCases.HasUnknown(ids, known) ==> form.categories == ids)
            && (PostUseCases.KnownOnly(ids, known) != [] ==> form.categories == PostUseCases.KnownOnly(ids, known))
            && (ids != [] && PostUseCases.KnownOnly(ids, known) == [] ==>
                  form.categories == [DefaultCategory] &&
                  form.fieldErrors[PostUseCases.CategoriesKey] == PostUseCases.InvalidCategory)
  {
    if ids != [] && !PostUseCases.HasUnknown(ids, known) {
      PostUseCases.KnownOnlyAllKnown(ids, known);
    }
    if ids != [] && PostUseCases.KnownOnly(ids, known) == [] {
      assert ids[0] !in known;
    }
  }

  /** Where some selected ID is known, this handler and the service's
      `validateCategories` keep the same selection; where none is, the
      service keeps the selection and this handler falls back to [1]. */
  lemma WebAndServiceCategories(title: string, content: string, ids: seq<int>, all: seq<Category>)
    requires ids != []
    ensures var web := ValidateWebForm(title, content, ids, PostUseCases.CategoryIds(all));
            var service := PostUseCases.ValidateCategories(PostUseCases.PostCreateForm(title, content, ids, Empty()), all);
            (PostUseCases.KnownOnly(ids, PostUseCases.CategoryIds(all)) != [] ==> web.categories == service.categories) &&
            (PostUseCases.KnownOnly(ids, PostUseCases.CategoryIds(all)) == [] ==>
               web.categories == [DefaultCategory] && service.categories == ids)
  {
    WebCategoriesSelection(title, content, ids, PostUseCases.CategoryIds(all));
  }

  /** What `postCreate` does with a request. */
  datatype CreateResponse =
    | BadRequest
    | Unprocessable(form: WebPostForm)
    | Insert(title: string, content: string, userID: int, categories: seq<int>)

  /** Every form value parses to a stored category. */
  predicate AllKnownIDs(raw: seq<string>, known: set<int>) {
    forall i :: 0 <= i < |raw| ==> Atoi(raw[i]).Some? && Atoi(raw[i]).value in known
  }

  /** `postCreate` up to the insert: 400 when a category value is not a
      number, 422 with the form when a field error was recorded, and
      otherwise the insert of the post for user 1 with the selected
      categories, exactly as given. */
  method PostCreate(title: string, content: string, raw: seq<string>, known: set<int>) returns (r: CreateResponse)
    ensures r == BadRequest <==> exists i :: 0 <= i < |raw| && Atoi(raw[i]).None?
    ensures r.Insert? <==>
              && AllKnownIDs(raw, known) && raw != []
              && TrimSpace(title) != "" && |title| <= PostUseCases.MaxTitleRunes && TrimSpace(content) != ""
    ensures r.Insert? ==>
              && r.title == title && r.content == content && r.userID == WebUserID
              && |r.categories| == |raw| && forall i :: 0 <= i < |raw| ==> Atoi(raw[i]) == Some(r.categories[i])
    ensures r.Unprocessable? ==>
              && AtoiAll(raw).Some? && r.form == ValidateWebForm(title, content, AtoiAll(raw).value, known)
              && |r.form.fieldErrors| > 0
  {
    var parsed := ParseCategoryIDs(raw);
    if parsed.None? {
      return BadRequest;
    }
    var ids := parsed.value;
    var form := ValidateWebForm(title, content, ids, known);
    assert PostUseCases.HasUnknown(ids, known) <==> !AllKnownIDs(raw, known) by {
      if PostUseCases.HasUnknown(ids, known) {
        var i :| 0 <= i < |ids| && ids[i] !in known;
        assert Atoi(raw[i]) == Some(ids[i]);
      }
    }
    if |form.fieldErrors| > 0 {
      return Unprocessable(form);
    }
    assert PostUseCases.CategoriesKey !in form.fieldErrors;
    WebCategoriesSelection(title, content, ids, known);
    return Insert(form.title, form.content, WebUserID, form.categories);
  }
}
