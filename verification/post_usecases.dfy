/** The post use cases of internal/service/post_usecases.go: category
    selection, the fetch-one-more pagination rule, the "filtered by" header,
    the validation gate in front of post creation, and owner-only deletes.

    Repository reads whose SQL is not modelled (paginated queries, the
    category list) are passed in as the values the repository returned. */
module PostUseCases {
  import opened Wrappers
  import opened Strings
  import opened Entities
  import opened Validator
  import opened ForumStore

  /** `postCreateForm`: the submitted fields plus the embedded validator. */
  datatype PostCreateForm = PostCreateForm(title: string, content: string, categories: seq<int>, v: Validator)

  /** `PostsDTO`, the page of posts handed to the templates. */
  datatype PostsDTO = PostsDTO(
    user: Option<User>,
    posts: seq<Post>,
    hasNextPage: bool,
    currentPage: int,
    paginationURL: string,
    categories: seq<Category>,
    header: string)

  const CategoriesKey: string := "categories"
  const NeedCategory: string := "Need one or more category"
  const InvalidCategory: string := "One or more categories are invalid"
  const AllPostsHeader: string := "All posts"
  const FilteredPrefix: string := "Posts filtered by: "
  const DeletedUserName: string := "Deleted User"

  // ---------------------------------------------------------------------------
  // validateCategories
  // ---------------------------------------------------------------------------

  function CategoryIds(all: seq<Category>): (ids: set<int>)
    ensures forall i :: 0 <= i < |all| ==> all[i].id in ids
    ensures forall id :: id in ids ==> exists i :: 0 <= i < |all| && all[i].id == id
  {
    set c | c in all :: c.id
  }

  /** The selected IDs that name a known category, in the original order, duplicates kept. */
  function KnownOnly(cs: seq<int>, known: set<int>): (r: seq<int>)
    ensures |r| <= |cs|
    ensures forall c :: c in r <==> c in cs && c in known
    ensures multiset(r) <= multiset(cs)
  {
    if cs == [] then []
    else
      assert cs == [cs[0]] + cs[1..];
      (if cs[0] in known then [cs[0]] else []) + KnownOnly(cs[1..], known)
  }

  predicate HasUnknown(cs: seq<int>, known: set<int>) {
    exists i :: 0 <= i < |cs| && cs[i] !in known
  }

  /** The loop of `validateCategories`: keep the known IDs and record the
      "invalid" error for each unknown one (only the first record sticks). */
  function ScanCategories(cs: seq<int>, known: set<int>, v: Validator): (r: (seq<int>, Validator))
    ensures r.0 == KnownOnly(cs, known)
    ensures r.1 == if HasUnknown(cs, known) then AddFieldError(v, CategoriesKey, InvalidCategory) else v
  {
    if cs == [] then ([], v)
    else
      var v1 := if cs[0] in known then v else AddFieldError(v, CategoriesKey, InvalidCategory);
      var rest := ScanCategories(cs[1..], known, v1);
      HasUnknownStep(cs, known);
      FirstFieldErrorWins(v, CategoriesKey, InvalidCategory, InvalidCategory);
      ((if cs[0] in known then [cs[0]] else []) + rest.0, rest.1)
  }

  /** A selection has an unknown ID exactly when its head or its tail has one. */
  lemma HasUnknownStep(cs: seq<int>, known: set<int>)
    requires cs != []
    ensures HasUnknown(cs, known) <==> cs[0] !in known || HasUnknown(cs[1..], known)
  {
    if HasUnknown(cs[1..], known) {
      var i :| 0 <= i < |cs[1..]| && cs[1..][i] !in known;
      assert cs[i + 1] !in known;
    }
    if HasUnknown(cs, known) && cs[0] in known {
      var i :| 0 <= i < |cs| && cs[i] !in known;
      assert cs[1..][i - 1] !in known;
    }
  }

  /** `validateCategories`: the selection becomes its known IDs when there
      are any (otherwise it is left alone), and the "categories" field gets
      the "need" error for an empty selection or the "invalid" error when
      some ID is unknown (a later "need" on the same field is ignored). */
  function ValidateCategories(form: PostCreateForm, all: seq<Category>): (r: PostCreateForm)
    ensures r.title == form.title && r.content == form.content
    ensures r.categories == if KnownOnly(form.categories, CategoryIds(all)) != [] then KnownOnly(form.categories, CategoryIds(all))
                            else form.categories
    ensures r.v == if form.categories == [] then AddFieldError(form.v, CategoriesKey, NeedCategory)
                   else if HasUnknown(form.categories, CategoryIds(all)) then AddFieldError(form.v, CategoriesKey, InvalidCategory)
                   else form.v
  {
    var known := CategoryIds(all);
    var scan := if form.categories == [] then ([], AddFieldError(form.v, CategoriesKey, NeedCategory))
                else ScanCategories(form.categories, known, form.v);
    if |scan.0| > 0 then form.(categories := scan.0, v := scan.1)
    else
      assert form.categories != [] ==> HasUnknown(form.categories, known) by {
        if form.categories != [] && !HasUnknown(form.categories, known) {
          KnownOnlyAllKnown(form.categories, known);
        }
      }
      form.(v := AddFieldError(scan.1, CategoriesKey, NeedCategory))
  }

  /** The selection passes exactly when it is non-empty and every ID is a
      known category; it is then kept as it was. Any unknown ID makes the
      form invalid, with the "invalid" message unless the field already had one. */
  lemma ValidateCategoriesVerdict(form: PostCreateForm, all: seq<Category>)
    ensures var r := ValidateCategories(form, all);
            && (Valid(r.v) <==> Valid(form.v) && form.categories != [] && !HasUnknown(form.categories, CategoryIds(all)))
            && (form.categories != [] && !HasUnknown(form.categories, CategoryIds(all)) ==> r.categories == form.categories)
            && (form.categories == [] ==> r.categories == [] && CategoriesKey in r.v.fieldErrors)
            && (HasUnknown(form.categories, CategoryIds(all)) && CategoriesKey !in form.v.fieldErrors ==>
                  r.v.fieldErrors[CategoriesKey] == InvalidCategory)
            && r.v.nonFieldErrors == form.v.nonFieldErrors
  {
    if form.categories != [] && !HasUnknown(form.categories, CategoryIds(all)) {
      KnownOnlyAllKnown(form.categories, CategoryIds(all));
    }
  }

  lemma {:induction false} KnownOnlyAllKnown(cs: seq<int>, known: set<int>)
    requires !HasUnknown(cs, known)
    ensures KnownOnly(cs, known) == cs
  {
    if cs != [] {
      assert cs[0] in known;
      assert !HasUnknown(cs[1..], known) by {
        forall i | 0 <= i < |cs[1..]| ensures cs[1..][i] in known {
          assert cs[1..][i] == cs[i + 1];
        }
      }
      KnownOnlyAllKnown(cs[1..], known);
      assert cs == [cs[0]] + cs[1..];
    }
  }

  /** When no selected ID is known the selection is kept, and the form is
      rejected with the "invalid" error (or an earlier one). */
  lemma NoKnownCategoryRejected(form: PostCreateForm, all: seq<Category>)
    requires form.categories != [] && KnownOnly(form.categories, CategoryIds(all)) == []
    ensures ValidateCategories(form, all).categories == form.categories
    ensures !Valid(ValidateCategories(form, all).v)
  {
    assert form.categories[0] !in CategoryIds(all);
  }

  // ---------------------------------------------------------------------------
  // Pagination
  // ---------------------------------------------------------------------------

  /** The trim every paginated getter applies to the `pageSize + 1` rows the
      repository returns: the flag says whether the extra row came back, and
      the page is the first `pageSize` rows (or all of them). */
  function Paginate<T>(rows: seq<T>, pageSize: nat): (r: (seq<T>, bool))
    ensures r.1 <==> |rows| > pageSize
    ensures |r.0| == if |rows| > pageSize then pageSize else |rows|
    ensures r.0 == rows[..|r.0|]
  {
    var hasNextPage := |rows| > pageSize;
    if hasNextPage then (rows[..pageSize], true) else (rows, false)
  }

  /** The rows the paginated queries select: `LIMIT pageSize+1 OFFSET (page-1)*pageSize`
      over the full ordered result. */
  function Window<T>(all: seq<T>, page: nat, pageSize: nat): (w: seq<T>)
    requires page >= 1
  {
    var offset := (page - 1) * pageSize;
    if offset >= |all| then []
    else all[offset..if offset + pageSize + 1 <= |all| then offset + pageSize + 1 else |all|]
  }

  /** Fetching one row more than a page and trimming it gives exactly the
      requested page of the full result, and the flag says whether any row
      lies beyond it. */
  lemma PaginateWindow<T>(all: seq<T>, page: nat, pageSize: nat)
    requires page >= 1
    ensures var offset := (page - 1) * pageSize;
            var r := Paginate(Window(all, page, pageSize), pageSize);
            && (r.1 <==> |all| > offset + pageSize)
            && r.0 == if offset >= |all| then []
                      else all[offset..if offset + pageSize <= |all| then offset + pageSize else |all|]
  {
  }

  /** `GetAllPaginatedPostsDTO` (and, with the same trim, the unapproved,
      liked and commented variants). */
  function GetAllPaginatedPostsDTO(rows: seq<Post>, categories: seq<Category>, page: int, pageSize: nat,
                                   paginationURL: string): (dto: PostsDTO)
    ensures dto.hasNextPage <==> |rows| > pageSize
    ensures dto.posts == rows[..if |rows| > pageSize then pageSize else |rows|]
    ensures !dto.hasNextPage ==> dto.posts == rows
    ensures dto.categories == categories && dto.currentPage == page
  {
    var (posts, hasNextPage) := Paginate(rows, pageSize);
    PostsDTO(None, posts, hasNextPage, page, paginationURL, categories, "")
  }

  /** `GetUserPostsDTO`. `userExists` is the answer of `userRepo.Exists`, `rows`
      that of the paginated query and `got` that of `userRepo.Get` (None for
      ErrNoRecord), which may differ from `userExists` if the user was deleted in
      between. */
  function GetUserPostsDTO(userExists: bool, rows: seq<Post>, got: Option<User>, userID: int, page: int,
                           pageSize: nat, paginationURL: string): (r: Result<PostsDTO, Error>)
    ensures !userExists ==> r == Failure(ErrNoRecord)
    ensures userExists && got.None? && rows == [] ==> r == Failure(ErrNoRecord)
    ensures r.Success? ==> userExists && r.value.user.Some?
    ensures r.Success? ==> (r.value.hasNextPage <==> |rows| > pageSize)
    ensures r.Success? ==> r.value.posts == rows[..if |rows| > pageSize then pageSize else |rows|]
    ensures r.Success? && got.None? ==> r.value.user == Some(User(DeletedUserName, "", ""))
    ensures userExists && (got.Some? || rows != []) ==> r.Success?
  {
    if !userExists then Failure(ErrNoRecord)
    else
      var user :- match got
        case Some(u) => Success(u)
        case None => if |rows| == 0 then Failure(ErrNoRecord) else Success(User(DeletedUserName, "", ""));
      var (posts, hasNextPage) := Paginate(rows, pageSize);
      Success(PostsDTO(Some(user), posts, hasNextPage, page, paginationURL, [], ""))
  }

  // ---------------------------------------------------------------------------
  // GetFilteredPaginatedPostsDTO
  // ---------------------------------------------------------------------------

  /** The inner loop of the header construction: the category's name once per
      selected ID equal to its ID. */
  function NamesFor(c: Category, selected: seq<int>): (names: seq<string>)
    ensures |names| == multiset(selected)[c.id]
    ensures forall i :: 0 <= i < |names| ==> names[i] == c.name
  {
    if selected == [] then []
    else
      assert selected == [selected[0]] + selected[1..];
      (if c.id == selected[0] then [c.name] else []) + NamesFor(c, selected[1..])
  }

  /** The outer loop: names in the order of the category list. */
  function MatchingNames(all: seq<Category>, selected: seq<int>): (names: seq<string>)
    ensures names == [] <==> forall i :: 0 <= i < |all| ==> all[i].id !in selected
    ensures forall x :: x in names ==> exists i :: 0 <= i < |all| && all[i].id in selected && all[i].name == x
  {
    if all == [] then []
    else
      var rest := MatchingNames(all[1..], selected);
      var here := NamesFor(all[0], selected);
      assert here == [] <==> all[0].id !in selected;
      assert forall x :: x in rest ==> exists i :: 0 <= i < |all| && all[i].id in selected && all[i].name == x by {
        forall x | x in rest ensures exists i :: 0 <= i < |all| && all[i].id in selected && all[i].name == x {
          var j :| 0 <= j < |all[1..]| && all[1..][j].id in selected && all[1..][j].name == x;
          assert all[j + 1] == all[1..][j];
        }
      }
      assert (forall i :: 0 <= i < |all| ==> all[i].id !in selected) <==>
             all[0].id !in selected && (forall i :: 0 <= i < |all[1..]| ==> all[1..][i].id !in selected) by {
        if forall i :: 0 <= i < |all[1..]| ==> all[1..][i].id !in selected {
          forall i | 1 <= i < |all| ensures all[i].id !in selected {
            assert all[i] == all[1..][i - 1];
          }
        }
      }
      here + rest
  }

  /** The reference reading of the header: each category whose ID was
      selected, once, in category-list order. */
  function SelectedNames(all: seq<Category>, selected: seq<int>): seq<string> {
    if all == [] then []
    else (if all[0].id in selected then [all[0].name] else []) + SelectedNames(all[1..], selected)
  }

  predicate NoDuplicates(xs: seq<int>) {
    forall i, j :: 0 <= i < j < |xs| ==> xs[i] != xs[j]
  }

  /** Without repeated selections, the header lists each selected category
      once, in category-list order. */
  lemma {:induction false} MatchingNamesDistinct(all: seq<Category>, selected: seq<int>)
    requires NoDuplicates(selected)
    ensures MatchingNames(all, selected) == SelectedNames(all, selected)
  {
    if all != [] {
      MultiplicityAtMostOne(selected, all[0].id);
      MatchingNamesDistinct(all[1..], selected);
      var here := NamesFor(all[0], selected);
      if all[0].id in selected {
        assert |here| == 1 && here[0] == all[0].name;
        assert here == [all[0].name];
      } else {
        assert here == [];
      }
    }
  }

  lemma {:induction false} MultiplicityAtMostOne(xs: seq<int>, x: int)
    requires NoDuplicates(xs)
    ensures multiset(xs)[x] == if x in xs then 1 else 0
  {
    if xs != [] {
      assert xs == [xs[0]] + xs[1..];
      assert NoDuplicates(xs[1..]) by {
        forall i, j | 0 <= i < j < |xs[1..]| ensures xs[1..][i] != xs[1..][j] {
          assert xs[1..][i] == xs[i + 1] && xs[1..][j] == xs[j + 1];
        }
      }
      assert xs[0] !in xs[1..] by {
        forall j | 0 <= j < |xs[1..]| ensures xs[1..][j] != xs[0] {
          assert xs[1..][j] == xs[j + 1];
        }
      }
      MultiplicityAtMostOne(xs[1..], x);
    }
  }

  /** The page header: "All posts" exactly when no stored category was
      selected; otherwise the prefix and the selected categories' names, each
      once and in category-list order when no ID is selected twice. */
  function FilteredHeader(all: seq<Category>, selected: seq<int>): (h: string)
    ensures h == AllPostsHeader <==> forall i :: 0 <= i < |all| ==> all[i].id !in selected
    ensures h != AllPostsHeader && NoDuplicates(selected) ==>
              h == FilteredPrefix + Join(SelectedNames(all, selected), ", ")
    ensures h != AllPostsHeader ==> |FilteredPrefix| <= |h| && h[..|FilteredPrefix|] == FilteredPrefix
  {
    assert NoDuplicates(selected) ==> MatchingNames(all, selected) == SelectedNames(all, selected) by {
      if NoDuplicates(selected) {
        MatchingNamesDistinct(all, selected);
      }
    }
    assert (FilteredPrefix + Join(MatchingNames(all, selected), ", "))[0] != AllPostsHeader[0];
    var names := MatchingNames(all, selected);
    if |names| > 0 then FilteredPrefix + Join(names, ", ") else AllPostsHeader
  }

  /** `GetFilteredPaginatedPostsDTO`. `allRows` and `byCategory` are the
      repository's answers to the unfiltered and the category-filtered
      queries; the form is returned because the Go code updates it in place. */
  function GetFilteredPaginatedPostsDTO(form: PostCreateForm, all: seq<Category>, allRows: seq<Post>,
                                        byCategory: seq<int> -> seq<Post>, page: int, pageSize: nat,
                                        paginationURL: string): (r: (PostsDTO, PostCreateForm))
    ensures r.1 == ValidateCategories(form, all)
    ensures r.0.categories == all && r.0.currentPage == page
    ensures r.0.paginationURL == paginationURL && r.0.user.None?
    ensures !Valid(r.1.v) ==>
              && r.0.header == AllPostsHeader && r.0.posts == Paginate(allRows, pageSize).0
              && (r.0.hasNextPage <==> |allRows| > pageSize)
    ensures Valid(r.1.v) ==>
              && r.0.header == FilteredPrefix + Join(MatchingNames(all, r.1.categories), ", ")
              && r.0.posts == Paginate(byCategory(r.1.categories), pageSize).0
              && (r.0.hasNextPage <==> |byCategory(r.1.categories)| > pageSize)
  {
    var f := ValidateCategories(form, all);
    if !Valid(f.v) then
      var (posts, hasNextPage) := Paginate(allRows, pageSize);
      (PostsDTO(None, posts, hasNextPage, page, paginationURL, all, AllPostsHeader), f)
    else
      ValidSelectionMatches(form, all);
      var rows := byCategory(f.categories);
      var (posts, hasNextPage) := Paginate(rows, pageSize);
      (PostsDTO(None, posts, hasNextPage, page, paginationURL, all, FilteredHeader(all, f.categories)), f)
  }

  /** A valid selection always names some category, so its header is never "All posts". */
  lemma ValidSelectionMatches(form: PostCreateForm, all: seq<Category>)
    requires Valid(ValidateCategories(form, all).v)
    ensures MatchingNames(all, ValidateCategories(form, all).categories) != []
  {
    var f := ValidateCategories(form, all);
    var known := CategoryIds(all);
    ValidateCategoriesVerdict(form, all);
    KnownOnlyAllKnown(form.categories, known);
    var c := form.categories[0];
    assert c in f.categories;
    var i :| 0 <= i < |all| && all[i].id == c;
  }

  // ---------------------------------------------------------------------------
  // CreatePostWithCategories
  // ---------------------------------------------------------------------------

  const TitleKey: string := "title"
  const ContentKey: string := "content"
  const ImageKey: string := "image"
  const BlankMessage: string := "This field cannot be blank"
  const TooLongMessage: string := "This field cannot be more than 100 characters long"
  const LettersMessage: string := "This field must contain only english or russian letters"
  const ImageTypeMessage: string := "The project requires handling JPEG, PNG, GIF images"
  const ImageSizeMessage: string := "Maximum file size limit is 20 MB"
  const MaxTitleRunes: int := 100

  /** The verdict of `ValidateImageFiles` on the uploaded files (file I/O and
      MIME sniffing are not modelled). */
  datatype ImageCheck = NoImages | ImagesOk | ImagesUnsupported | ImagesTooLarge | ImagesUnreadable

  /** The five text checks on title and content, in the order they run; the
      first failing check of a field gives its message. `textRX` stands for
      the `TextRX` regular expression. */
  function CheckText(form: PostCreateForm, textRX: string -> bool): (v: Validator)
    ensures TitleKey !in form.v.fieldErrors ==>
              (TitleKey in v.fieldErrors <==>
                 !NotBlank(form.title) || |form.title| > MaxTitleRunes || !textRX(form.title))
    ensures TitleKey !in form.v.fieldErrors && !NotBlank(form.title) ==> v.fieldErrors[TitleKey] == BlankMessage
    ensures TitleKey !in form.v.fieldErrors && NotBlank(form.title) && |form.title| > MaxTitleRunes ==>
              v.fieldErrors[TitleKey] == TooLongMessage
    ensures (TitleKey !in form.v.fieldErrors && NotBlank(form.title) && |form.title| <= MaxTitleRunes &&
             !textRX(form.title)) ==> v.fieldErrors[TitleKey] == LettersMessage
    ensures Valid(v) <==> Valid(form.v) && NotBlank(form.title) && |form.title| <= MaxTitleRunes &&
                          textRX(form.title) && NotBlank(form.content) && textRX(form.content)
  {
    var v1 := CheckField(form.v, NotBlank(form.title), TitleKey, BlankMessage);
    var v2 := CheckField(v1, MaxChars(form.title, MaxTitleRunes), TitleKey, TooLongMessage);
    var v3 := CheckField(v2, NotBlank(form.content), ContentKey, BlankMessage);
    var v4 := CheckField(v3, textRX(form.title), TitleKey, LettersMessage);
    CheckField(v4, textRX(form.content), ContentKey, LettersMessage)
  }

  /** The checks `CreatePostWithCategories` runs before touching the store,
      `textRX` standing for the `TextRX` regular expression. */
  function CheckPostForm(form: PostCreateForm, all: seq<Category>, textRX: string -> bool,
                         images: ImageCheck): (r: PostCreateForm)
    ensures Valid(r.v) <==>
              && Valid(CheckText(form, textRX))
              && form.categories != [] && !HasUnknown(form.categories, CategoryIds(all))
              && images !in {ImagesUnsupported, ImagesTooLarge}
    ensures r.title == form.title && r.content == form.content
    ensures r.categories == ValidateCategories(form, all).categories
  {
    var f := ValidateCategories(form.(v := CheckText(form, textRX)), all);
    ValidateCategoriesVerdict(form.(v := CheckText(form, textRX)), all);
    var v := match images
      case ImagesUnsupported => AddFieldError(f.v, ImageKey, ImageTypeMessage)
      case ImagesTooLarge => AddFieldError(f.v, ImageKey, ImageSizeMessage)
      case _ => f.v;
    f.(v := v)
  }

  /** The gate passes exactly when every check does: a non-blank title of
      at most 100 runes, non-blank content, both accepted by the text
      pattern, a non-empty selection of known categories, and acceptable images. */
  lemma CheckPostFormVerdict(form: PostCreateForm, all: seq<Category>, textRX: string -> bool, images: ImageCheck)
    ensures Valid(CheckPostForm(form, all, textRX, images).v) <==>
              && Valid(form.v)
              && NotBlank(form.title) && |form.title| <= MaxTitleRunes && textRX(form.title)
              && NotBlank(form.content) && textRX(form.content)
              && form.categories != [] && !HasUnknown(form.categories, CategoryIds(all))
              && images !in {ImagesUnsupported, ImagesTooLarge}
  {
  }

  /** Category and image errors never overwrite the message of the title. */
  lemma CheckPostFormTitle(form: PostCreateForm, all: seq<Category>, textRX: string -> bool, images: ImageCheck)
    requires TitleKey in CheckText(form, textRX).fieldErrors
    ensures CheckPostForm(form, all, textRX, images).v.fieldErrors[TitleKey] == CheckText(form, textRX).fieldErrors[TitleKey]
  {
    var t := CheckText(form, textRX);
    ValidateCategoriesKeepsField(form.(v := t), all, TitleKey);
  }

  /** `validateCategories` writes only the "categories" field. */
  lemma ValidateCategoriesKeepsField(form: PostCreateForm, all: seq<Category>, key: string)
    requires key != CategoriesKey && key in form.v.fieldErrors
    ensures key in ValidateCategories(form, all).v.fieldErrors
    ensures ValidateCategories(form, all).v.fieldErrors[key] == form.v.fieldErrors[key]
  {
  }

  /** What `CreatePostWithCategories` returns and leaves behind. */
  datatype CreateOutcome = CreateOutcome(forum: Forum, form: PostCreateForm, result: Result<int, Error>)

  /** `CreatePostWithCategories`. `newId` is the row id the database assigns
      and `paths` the names `uploadImages` gives the stored files. */
  function CreatePostWithCategories(f: Forum, form: PostCreateForm, images: ImageCheck, paths: seq<string>,
                                    textRX: string -> bool, userID: int, newId: int): (r: CreateOutcome)
    requires newId !in f.posts
    ensures r.form == CheckPostForm(form, f.categories, textRX, if images == ImagesUnreadable then NoImages else images)
    ensures r.result.Failure? ==> r.forum == f
    ensures images == ImagesUnreadable ==> r.result == Failure(ErrImageRead)
    ensures images != ImagesUnreadable && !Valid(r.form.v) ==> r.result == Failure(ErrInvalidCredentials)
    ensures images != ImagesUnreadable && Valid(r.form.v) && userID !in f.users ==> r.result == Failure(ErrNoRecord)
    ensures r.result.Success? <==> images != ImagesUnreadable && Valid(r.form.v) && userID in f.users
    ensures r.result.Success? ==>
              && r.result.value == newId
              && r.forum == f.(posts := f.posts[newId := Post(form.title, form.content, userID, r.form.categories,
                                                                if images == NoImages then [] else paths)])
  {
    if images == ImagesUnreadable then
      var checked := CheckPostForm(form, f.categories, textRX, NoImages);
      CreateOutcome(f, checked, Failure(ErrImageRead))
    else
      var checked := CheckPostForm(form, f.categories, textRX, images);
      if !Valid(checked.v) then CreateOutcome(f, checked, Failure(ErrInvalidCredentials))
      else if userID !in f.users then CreateOutcome(f, checked, Failure(ErrNoRecord))
      else
        var filePaths := if images == NoImages then [] else paths;
        var post := Post(checked.title, checked.content, userID, checked.categories, filePaths);
        CreateOutcome(f.(posts := f.posts[newId := post]), checked, Success(newId))
  }

  // ---------------------------------------------------------------------------
  // Deletes
  // ---------------------------------------------------------------------------

  /** The first of `paths` whose removal fails, if any. */
  function FirstFailing(paths: seq<string>, removeFails: string -> bool): (r: Option<nat>)
    ensures r.None? <==> forall i :: 0 <= i < |paths| ==> !removeFails(paths[i])
    ensures r.Some? ==> r.value < |paths| && removeFails(paths[r.value]) &&
                        forall i :: 0 <= i < r.value ==> !removeFails(paths[i])
  {
    if paths == [] then None
    else if removeFails(paths[0]) then Some(0)
    else
      match FirstFailing(paths[1..], removeFails)
      case None => None
      case Some(k) => Some(k + 1)
  }

  /** `DeletePost`: unknown post is ErrNoRecord; only the owner's request
      reaches the files and the repository; anyone else gets nil and nothing
      changes. The owner's post loses its image files one by one, and the
      first file `os.Remove` refuses (`removeFails`) ends the request with
      that error before the row is deleted. */
  function DeletePost(f: Forum, postID: int, userID: int, removeFails: string -> bool): (r: (Forum, Option<Error>))
    ensures postID !in f.posts ==> r == (f, Some(ErrNoRecord))
    ensures postID in f.posts && f.posts[postID].userId != userID ==> r == (f, None)
    ensures r.1.Some? ==> r.0 == f
    ensures r.1.Some? && postID in f.posts ==>
              exists i :: 0 <= i < |f.posts[postID].images| && removeFails(f.posts[postID].images[i]) &&
                          r.1 == Some(ErrRemoveFile(f.posts[postID].images[i]))
    ensures postID in f.posts && f.posts[postID].userId == userID ==>
              (r.1 == None <==> forall i :: 0 <= i < |f.posts[postID].images| ==> !removeFails(f.posts[postID].images[i]))
    ensures postID in f.posts && f.posts[postID].userId == userID && r.1 == None ==>
              r.0 == f.(posts := r.0.posts) &&
              r.0.posts.Keys == f.posts.Keys - {postID} &&
              forall p :: p in r.0.posts ==> r.0.posts[p] == f.posts[p]
  {
    if postID !in f.posts then (f, Some(ErrNoRecord))
    else if f.posts[postID].userId == userID then
      match FirstFailing(f.posts[postID].images, removeFails)
      case Some(k) => (f, Some(ErrRemoveFile(f.posts[postID].images[k])))
      case None => (f.(posts := f.posts - {postID}), None)
    else (f, None)
  }

  /** `DeleteComment`: the same owner rule for comments. */
  function DeleteComment(f: Forum, commentID: int, userID: int): (r: (Forum, Option<Error>))
    ensures commentID !in f.comments ==> r == (f, Some(ErrNoRecord))
    ensures commentID in f.comments && f.comments[commentID].userId != userID ==> r == (f, None)
    ensures commentID in f.comments && f.comments[commentID].userId == userID ==>
              r.1 == None && r.0 == f.(comments := r.0.comments) &&
              r.0.comments.Keys == f.comments.Keys - {commentID} &&
              forall c :: c in r.0.comments ==> r.0.comments[c] == f.comments[c]
  {
    if commentID !in f.comments then (f, Some(ErrNoRecord))
    else if f.comments[commentID].userId == userID then (f.(comments := f.comments - {commentID}), None)
    else (f, None)
  }

  /** Whoever asks, a delete never removes a post owned by someone else. */
  lemma DeleteOnlyOwn(f: Forum, postID: int, userID: int, removeFails: string -> bool)
    ensures forall p :: p in f.posts && f.posts[p].userId != userID ==>
              p in DeletePost(f, postID, userID, removeFails).0.posts
  {
  }
}
