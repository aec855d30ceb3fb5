/** Page titles and breadcrumbs derived from the current route path (frontend/src/lib/utils.ts). */
module PathUtils {
  import opened Text
  import opened Records

  /** The message of the TypeError raised by `undefined.toUpperCase()`. */
  const UpperOfUndefined := "Cannot read properties of undefined (reading 'toUpperCase')"

  /** The prefix every application route shares. */
  const AppPrefix := "/app/"

  datatype Crumb = Crumb(name: string, path: string)

  /** `pathname.split('/').pop()`: the text after the last `/`. */
  function LastSegment(pathname: string): string
  {
    var parts := Split(pathname, "/");
    parts[|parts| - 1]
  }

  /** `getPageTitle`: the last path segment with its first character upper-cased.
      An empty last segment (an empty path or a trailing `/`) makes `titleChars[0]`
      undefined and the call throws. */
  function GetPageTitle(pathname: string): (r: Result<string>)
    ensures r.Err? <==> pathname == [] || pathname[|pathname| - 1] == '/'
    ensures r.Ok? ==>
      var t := r.value;
      && 0 < |t| <= |pathname| && '/' !in t
      && t[0] == UpperChar(pathname[|pathname| - |t|])
      && t[1..] == pathname[|pathname| - |t| + 1..]
      && (|t| < |pathname| ==> pathname[|pathname| - |t| - 1] == '/')
  {
    var title := LastSegment(pathname);
    SplitLastPiece(pathname, '/');
    if title == [] then Err(UpperOfUndefined) else Ok(Capitalize(title))
  }

  /** The root path already makes `getPageTitle` throw, although the `|| ''` fallback
      shows that an empty last segment was meant to be handled. */
  lemma RootTitleThrows()
    ensures GetPageTitle("/") == Err(UpperOfUndefined)
  {
    assert Split("/", "/") == [[]] + Split([], "/");
  }

  /** `getPageTitle` with the fallback it evidently intends: an empty last segment yields the
      empty title instead of a TypeError. */
  function PageTitle(pathname: string): (title: string)
    ensures GetPageTitle(pathname).Ok? ==> title == GetPageTitle(pathname).value
    ensures GetPageTitle(pathname).Err? ==> title == ""
    ensures '/' !in title && |title| <= |pathname|
  {
    var last := LastSegment(pathname);
    SplitLastPiece(pathname, '/');
    if last == [] then "" else Capitalize(last)
  }

  /** `item.length > 0`. */
  predicate HasChars(item: string)
  {
    |item| > 0
  }

  /** `list.filter((item) => item.length > 0)`. */
  function NonEmpty(parts: seq<string>): (r: seq<string>)
    ensures forall i :: 0 <= i < |r| ==> r[i] != []
  {
    Filter(HasChars, parts)
  }

  /** The text `getBreadcrumbs` looks at: `pathname.split('/app/')[1] || ''`. */
  function Cropped(pathname: string): string
  {
    var parts := Split(pathname, AppPrefix);
    if |parts| > 1 then parts[1] else ""
  }

  /** The non-empty `/`-separated segments of the cropped path. */
  function Segments(pathname: string): seq<string>
  {
    NonEmpty(Split(Cropped(pathname), "/"))
  }

  /** `getBreadcrumbs`: one crumb per segment; crumb i is named after segment i
      and links to `/app/` followed by segments 0..i joined by `/`. */
  function GetBreadcrumbs(pathname: string): (crumbs: seq<Crumb>)
    ensures |crumbs| == |Segments(pathname)|
  {
    var list := Segments(pathname);
    seq(|list|, i requires 0 <= i < |list| =>
      Crumb(Capitalize(list[i]), AppPrefix + Join(list[..i + 1], "/")))
  }

  /** Segments carry no `/` of their own. */
  lemma NonEmptyPiecesFree(parts: seq<string>)
    requires forall i :: 0 <= i < |parts| ==> '/' !in parts[i]
    ensures forall i :: 0 <= i < |NonEmpty(parts)| ==> '/' !in NonEmpty(parts)[i]
  {
    forall i | 0 <= i < |NonEmpty(parts)| ensures '/' !in NonEmpty(parts)[i] {
      FilterKept(HasChars, parts, i);
    }
  }

  /** Without `/app/` in the path there are no breadcrumbs. */
  lemma NoAppNoCrumbs(pathname: string)
    requires !Contains(pathname, AppPrefix)
    ensures GetBreadcrumbs(pathname) == []
  {
    SplitAbsent(pathname, AppPrefix);
    assert Split("", "/") == [""];
  }

  /** Only the text after the first `/app/` matters: whatever comes before it is ignored. */
  lemma CropAtFirstApp(a: string, b: string)
    requires forall i :: 0 <= i < |a| ==> !OccursAt(a + AppPrefix + b, AppPrefix, i)
    ensures GetBreadcrumbs(a + AppPrefix + b) == GetBreadcrumbs(AppPrefix + b)
  {
    SplitAtFirst(a, AppPrefix, b);
    SplitAtFirst([], AppPrefix, b);
    assert [] + AppPrefix + b == AppPrefix + b;
  }

  /** ... and so is whatever follows a second `/app/`. */
  lemma CropAtSecondApp(b: string, c: string)
    requires forall i :: 0 <= i < |b| ==> !OccursAt(b + AppPrefix + c, AppPrefix, i)
    ensures Cropped(AppPrefix + b + AppPrefix + c) == b
  {
    var rest := b + AppPrefix + c;
    assert Split(rest, AppPrefix) == [b] + Split(c, AppPrefix) by {
      SplitAtFirst(b, AppPrefix, c);
    }
    assert AppPrefix + b + AppPrefix + c == [] + AppPrefix + rest;
    assert Split([] + AppPrefix + rest, AppPrefix) == [[]] + Split(rest, AppPrefix) by {
      SplitAtFirst([], AppPrefix, rest);
    }
  }

  /** Each crumb is named after its segment: first character upper-cased, the rest kept;
      no crumb name is empty or holds a `/`. */
  lemma CrumbNames(pathname: string, i: int)
    requires 0 <= i < |GetBreadcrumbs(pathname)|
    ensures var name := GetBreadcrumbs(pathname)[i].name;
      var seg := Segments(pathname)[i];
      && |name| == |seg| > 0 && '/' !in name[1..]
      && name[0] == UpperChar(seg[0]) && name[1..] == seg[1..]
  {
    SplitPiecesFree(Cropped(pathname), '/');
    NonEmptyPiecesFree(Split(Cropped(pathname), "/"));
    var seg := Segments(pathname)[i];
    assert forall k :: 1 <= k < |seg| ==> seg[1..][k - 1] == seg[k];
  }

  /** Each crumb's path extends the previous one by `/` and the next segment. */
  lemma CrumbPathsExtend(pathname: string, i: int)
    requires 0 <= i && i + 1 < |GetBreadcrumbs(pathname)|
    ensures GetBreadcrumbs(pathname)[i + 1].path
      == GetBreadcrumbs(pathname)[i].path + "/" + Segments(pathname)[i + 1]
  {
    var list := Segments(pathname);
    assert list[..i + 2] == list[..i + 1] + [list[i + 1]];
    JoinSnoc(list[..i + 1], list[i + 1], "/");
  }

  /** The first crumb links to `/app/` and its segment; the last covers every segment,
      so for a path with no empty segment it links back to the whole cropped path. */
  lemma CrumbPathEnds(pathname: string)
    requires |GetBreadcrumbs(pathname)| > 0
    ensures GetBreadcrumbs(pathname)[0].path == AppPrefix + Segments(pathname)[0]
    ensures GetBreadcrumbs(pathname)[|GetBreadcrumbs(pathname)| - 1].path
      == AppPrefix + Join(Segments(pathname), "/")
    ensures NonEmpty(Split(Cropped(pathname), "/")) == Split(Cropped(pathname), "/") ==>
      GetBreadcrumbs(pathname)[|GetBreadcrumbs(pathname)| - 1].path == AppPrefix + Cropped(pathname)
  {
    var crumbs := GetBreadcrumbs(pathname);
    var list := Segments(pathname);
    var n := |list|;
    assert crumbs[0].path == AppPrefix + list[0] by {
      assert list[..1] == [list[0]];
    }
    assert crumbs[n - 1].path == AppPrefix + Join(list, "/") by {
      assert list[..n] == list;
    }
    if NonEmpty(Split(Cropped(pathname), "/")) == Split(Cropped(pathname), "/") {
      JoinSplit(Cropped(pathname), "/");
    }
  }

}
