/** The page script ui/static/js/main.js: the loop that marks the nav link
    of the current page "live", and the rewrite of comment timestamps. */
module NavScript {
  import opened Wrappers

  /** A `nav a` element: its `href` attribute (`None` when absent, which
      `getAttribute` reports as null) and its class list. */
  datatype Link = Link(href: Option<string>, classes: set<string>)

  const LiveClass: string := "live"

  /** A link whose href is exactly the path: no trailing-slash, query or
      case normalisation. A link without an href never matches. */
  predicate IsCurrent(l: Link, path: string) {
    l.href == Some(path)
  }

  /** The reference definition: the position of the first current link. */
  function FirstMatch(links: seq<Link>, path: string): (r: Option<nat>)
    ensures r.None? <==> forall i :: 0 <= i < |links| ==> !IsCurrent(links[i], path)
    ensures r.Some? ==> r.value < |links| && IsCurrent(links[r.value], path) &&
                        forall j :: 0 <= j < r.value ==> !IsCurrent(links[j], path)
  {
    if links == [] then None
    else if IsCurrent(links[0], path) then Some(0)
    else
      match FirstMatch(links[1..], path)
      case None => None
      case Some(m) => Some(m + 1)
  }

  /** The highlighting loop: the first link whose href equals the path gets
      the "live" class and the loop stops there; `examined` counts the links
      the loop looked at. */
  method Highlight(links: seq<Link>, path: string) returns (r: seq<Link>, examined: nat)
    ensures |r| == |links|
    ensures forall i :: 0 <= i < |links| ==> r[i].href == links[i].href
    ensures FirstMatch(links, path).None? ==> r == links && examined == |links|
    ensures FirstMatch(links, path).Some? ==>
              var m := FirstMatch(links, path).value;
              && r[m].classes == links[m].classes + {LiveClass}
              && (forall i :: 0 <= i < |links| && i != m ==> r[i] == links[i])
              && examined == m + 1
  {
    r := links;
    var i := 0;
    while i < |links|
      invariant 0 <= i <= |links|
      invariant r == links
      invariant forall j :: 0 <= j < i ==> !IsCurrent(links[j], path)
    {
      if links[i].href == Some(path) {
        r := r[i := links[i].(classes := links[i].classes + {LiveClass})];
        return r, i + 1;
      }
      i := i + 1;
    }
    return r, i;
  }

  /** At most one link changes, and a changed link is a current one. */
  lemma AtMostOneMarked(links: seq<Link>, path: string, r: seq<Link>)
    requires |r| == |links|
    requires FirstMatch(links, path).None? ==> r == links
    requires FirstMatch(links, path).Some? ==>
               forall i :: 0 <= i < |links| && i != FirstMatch(links, path).value ==> r[i] == links[i]
    ensures forall i, j :: 0 <= i < j < |links| && r[i] != links[i] ==> r[j] == links[j]
    ensures forall i :: 0 <= i < |links| && r[i] != links[i] ==> IsCurrent(links[i], path)
  {
  }

  /** Matching is exact: a trailing slash or a query string is another path. */
  lemma ExactComparison()
    ensures !IsCurrent(Link(Some("/post/create"), {}), "/post/create/")
    ensures !IsCurrent(Link(Some("/"), {}), "/?page=2")
    ensures !IsCurrent(Link(None, {}), "/")
  {
  }

  // ---------------------------------------------------------------------------
  // Comment timestamps
  // ---------------------------------------------------------------------------

  const InvalidDate: string := "Invalid date"

  /** The text a `.comment-time` element gets. `dataTime` is its `data-time`
      attribute; `parse` stands for `new Date(...)` (`None` for a NaN time)
      and `format` for `toLocaleString` with the fixed options. A missing
      attribute is `new Date(null)`, the epoch, which is a valid date. */
  function CommentTimeText(dataTime: Option<string>, parse: string -> Option<int>, format: int -> string): (text: string)
    ensures dataTime.None? ==> text == format(0)
    ensures dataTime.Some? && parse(dataTime.value).None? ==> text == InvalidDate
    ensures dataTime.Some? && parse(dataTime.value).Some? ==> text == format(parse(dataTime.value).value)
  {
    match dataTime
    case None => format(0)
    case Some(s) =>
      match parse(s)
      case None => InvalidDate
      case Some(t) => format(t)
  }

  /** The `forEach` over the comment times: every element is rewritten on
      its own, in place. */
  function RewriteTimes(dataTimes: seq<Option<string>>, parse: string -> Option<int>, format: int -> string): (texts: seq<string>)
    ensures |texts| == |dataTimes|
    ensures forall i :: 0 <= i < |dataTimes| ==> texts[i] == CommentTimeText(dataTimes[i], parse, format)
  {
    if dataTimes == [] then []
    else [CommentTimeText(dataTimes[0], parse, format)] + RewriteTimes(dataTimes[1..], parse, format)
  }

  /** An element whose time does not parse shows "Invalid date", whatever
      the other elements hold. */
  lemma UnparsableShowsInvalid(dataTimes: seq<Option<string>>, parse: string -> Option<int>, format: int -> string, i: nat)
    requires i < |dataTimes| && dataTimes[i].Some? && parse(dataTimes[i].value).None?
    ensures RewriteTimes(dataTimes, parse, format)[i] == InvalidDate
  {
  }
}
