/** The DataTables tweaks of the extranet (static/extranet/datatable.js) and of the document
    tables (static/js/sbe-datatable.js): the paging information, the Bootstrap pager's window
    of page links, the sort comparators and the advanced-search parameters.

    The table's settings are a value; the DOM the pager rewrites is the list of its page
    buttons and the two disabled flags. The library's own string order (`string-asc`,
    `string-desc`) is JavaScript's `<` on strings, taken here character by character. */
module DataTable {
  import opened Text

  // ---------------------------------------------------------------------------
  // fnPagingInfo
  // ---------------------------------------------------------------------------

  /** `Math.ceil(a / b)` for integers. */
  function CeilDiv(a: int, b: int): (q: int)
    requires b != 0
    ensures b > 0 ==> (q - 1) * b < a <= q * b
    ensures b < 0 ==> q * b <= a < (q - 1) * b
  {
    if b > 0 then
      var d := (-a) / b;
      assert -a == d * b + (-a) % b;
      -d
    else
      var d := a / (-b);
      assert a == d * (-b) + a % (-b);
      -d
  }

  /** A whole number of pages divides exactly. */
  lemma CeilDivExact(k: int, b: int)
    requires b > 0
    ensures CeilDiv(k * b, b) == k
  {
    var q := CeilDiv(k * b, b);
    if q < k {
      assert q * b < k * b by { MulLess(q, k, b); }
    }
  }

  lemma MulLess(x: int, y: int, b: int)
    requires b > 0 && x < y
    ensures x * b < y * b
  {
    assert y * b - x * b == (y - x) * b;
  }

  lemma MulLessEq(x: int, y: int, b: int)
    requires b > 0 && x <= y
    ensures x * b <= y * b
  {
    assert y * b - x * b == (y - x) * b;
  }

  /** What the table knows of its rows: the first row shown, the page length (-1 shows
      every row), the end of the page and the record counts, before and after filtering. */
  datatype Settings = Settings(displayStart: int, displayLength: int, displayEnd: int,
                               recordsTotal: nat, recordsDisplay: nat)

  datatype PagingInfo = PagingInfo(iStart: int, iEnd: int, iLength: int, iTotal: nat,
                                   iFilteredTotal: nat, iPage: int, iTotalPages: int)

  /** `fnPagingInfo`: the current page is the first row over the page length, rounded up,
      and the page count the filtered records over the page length, rounded up. */
  function Paging(s: Settings): (r: PagingInfo)
    requires s.displayLength != 0
    ensures r.iStart == s.displayStart && r.iLength == s.displayLength
    ensures r.iFilteredTotal == s.recordsDisplay && r.iTotal == s.recordsTotal
    ensures s.displayLength > 0 ==>
              (r.iTotalPages - 1) * s.displayLength < s.recordsDisplay <= r.iTotalPages * s.displayLength
    ensures s.displayLength > 0 ==>
              (r.iPage - 1) * s.displayLength < s.displayStart <= r.iPage * s.displayLength
  {
    PagingInfo(s.displayStart, s.displayEnd, s.displayLength, s.recordsTotal, s.recordsDisplay,
               CeilDiv(s.displayStart, s.displayLength), CeilDiv(s.recordsDisplay, s.displayLength))
  }

  // ---------------------------------------------------------------------------
  // The Bootstrap pager (fnUpdate)
  // ---------------------------------------------------------------------------

  const ListLength: int := 5
  const Half: int := ListLength / 2

  /** The first and last page numbers (counted from 1) of the links the pager shows. */
  function Window(page: int, totalPages: int): (int, int) {
    if totalPages < ListLength then (1, totalPages)
    else if page <= Half then (1, ListLength)
    else if page >= totalPages - Half then (totalPages - ListLength + 1, totalPages)
    else
      var start := page - Half + 1;
      (start, start + ListLength - 1)
  }

  /** The window never holds more than five pages, starts at page 1 or later, ends at the
      last page or before, and holds as many pages as there are, up to five. */
  lemma WindowBounds(page: int, totalPages: int)
    ensures var (s, e) := Window(page, totalPages);
            1 <= s && e <= totalPages && e - s + 1 <= ListLength
            && (totalPages >= 0 ==> e - s + 1 == if totalPages < ListLength then totalPages else ListLength)
  {
  }

  /** When the current page exists, the window shows it. */
  lemma WindowHasCurrent(page: int, totalPages: int)
    requires 0 <= page < totalPages
    ensures var (s, e) := Window(page, totalPages);
            s <= page + 1 <= e
  {
  }

  datatype Button = Button(number: int, active: bool)

  /** The links the pager rewrites: one per page of the window, the current one active. */
  datatype Pager = Pager(buttons: seq<Button>, prevDisabled: bool, nextDisabled: bool)

  function Buttons(s: int, e: int, page: int): (r: seq<Button>)
    ensures |r| == if e < s then 0 else e - s + 1
    ensures forall k :: 0 <= k < |r| ==> r[k].number == s + k
    ensures forall k :: 0 <= k < |r| ==> (r[k].active <==> s + k == page + 1)
  {
    seq(if e < s then 0 else e - s + 1, k => Button(s + k, s + k == page + 1))
  }

  /** `fnUpdate`: the page links of the window, and the previous and next links disabled on
      the first and last pages (the next link also when there is no page). */
  function Update(p: PagingInfo): (r: Pager)
    ensures r.prevDisabled <==> p.iPage == 0
    ensures r.nextDisabled <==> p.iPage == p.iTotalPages - 1 || p.iTotalPages == 0
    ensures |r.buttons| <= ListLength
    ensures forall k :: 0 <= k < |r.buttons| ==> 1 <= r.buttons[k].number <= p.iTotalPages
    ensures p.iTotalPages <= 0 ==> r.buttons == []
  {
    var (s, e) := Window(p.iPage, p.iTotalPages);
    WindowBounds(p.iPage, p.iTotalPages);
    Pager(Buttons(s, e, p.iPage), p.iPage == 0, p.iPage == p.iTotalPages - 1 || p.iTotalPages == 0)
  }

  /** On an existing page exactly one link is active, and it is the current page's. */
  lemma OneActive(p: PagingInfo)
    requires 0 <= p.iPage < p.iTotalPages
    ensures var bs := Update(p).buttons;
            exists k :: 0 <= k < |bs| && bs[k].active && bs[k].number == p.iPage + 1
    ensures var bs := Update(p).buttons;
            forall k :: 0 <= k < |bs| && bs[k].active ==> bs[k].number == p.iPage + 1
  {
    var (s, e) := Window(p.iPage, p.iTotalPages);
    WindowHasCurrent(p.iPage, p.iTotalPages);
    var bs := Update(p).buttons;
    assert bs[p.iPage + 1 - s].active;
  }

  /** A click on the link of page `j` moves the first row shown to the start of that page. */
  function ClickPage(s: Settings, j: int): (r: Settings)
    ensures r.displayStart == (j - 1) * s.displayLength
    ensures r.(displayStart := s.displayStart) == s
  {
    s.(displayStart := (j - 1) * s.displayLength)
  }

  /** Clicking the link of a page of the window makes it the current page: its link is the
      active one, and the previous and next links are disabled exactly on the first and
      last pages. */
  lemma ClickRoundTrip(s: Settings, j: int)
    requires s.displayLength > 0
    requires 1 <= j <= Paging(s).iTotalPages
    ensures var p := Paging(ClickPage(s, j));
            p.iPage == j - 1 && p.iTotalPages == Paging(s).iTotalPages
    ensures var pager := Update(Paging(ClickPage(s, j)));
            (pager.prevDisabled <==> j == 1) && (pager.nextDisabled <==> j == Paging(s).iTotalPages)
            && forall k :: 0 <= k < |pager.buttons| ==> (pager.buttons[k].active <==> pager.buttons[k].number == j)
  {
    CeilDivExact(j - 1, s.displayLength);
  }

  // ---------------------------------------------------------------------------
  // Sort comparators
  // ---------------------------------------------------------------------------

  /** JavaScript's `x < y` on strings. */
  predicate Less(x: string, y: string) {
    LexLe(x, y) && x != y
  }

  /** The library's `string-asc` and `string-desc`. */
  function StringAsc(x: string, y: string): int {
    if Less(x, y) then -1 else if Less(y, x) then 1 else 0
  }

  function StringDesc(x: string, y: string): int {
    if Less(x, y) then 1 else if Less(y, x) then -1 else 0
  }

  /** `string-non-null-asc`: equal values tie, an empty value comes first, and the rest
      follow the string order. */
  function NonNullAsc(x: string, y: string): (r: int)
    ensures r == 0 <==> x == y
    ensures x == "" && y != "" ==> r == -1
    ensures x != "" && y == "" ==> r == 1
  {
    if x == y then 0
    else if x == "" then -1
    else if y == "" then 1
    else
      LexLeTotal(x, y);
      StringAsc(x, y)
  }

  /** `string-non-null-desc`: equal values tie, an empty (falsy) value comes last, and the
      rest follow the reversed string order. */
  function NonNullDesc(x: string, y: string): (r: int)
    ensures r == 0 <==> x == y
    ensures x == "" && y != "" ==> r == 1
    ensures x != "" && y == "" ==> r == -1
  {
    if x == y then 0
    else if x == "" then 1
    else if y == "" then -1
    else
      LexLeTotal(x, y);
      StringDesc(x, y)
  }

  /** The empty string is the least string anyway, so the non-null comparators order
      exactly as the plain string order, and the descending one is the ascending one
      reversed. */
  lemma NonNullIsStringOrder(x: string, y: string)
    ensures NonNullAsc(x, y) == StringAsc(x, y)
    ensures NonNullDesc(x, y) == -NonNullAsc(x, y)
  {
    LexLeTotal(x, y);
    if LexLe(x, y) && LexLe(y, x) {
      LexLeAntisymmetric(x, y);
    }
  }

  /** The ascending comparator is a total order: antisymmetric and transitive. */
  lemma NonNullAscOrder(x: string, y: string, z: string)
    ensures NonNullAsc(x, y) == -NonNullAsc(y, x)
    ensures NonNullAsc(x, y) <= 0 && NonNullAsc(y, z) <= 0 ==> NonNullAsc(x, z) <= 0
  {
    NonNullIsStringOrder(x, y);
    NonNullIsStringOrder(y, x);
    if NonNullAsc(x, y) <= 0 && NonNullAsc(y, z) <= 0 {
      NonNullIsStringOrder(y, z);
      NonNullIsStringOrder(x, z);
      AscLe(x, y);
      AscLe(y, z);
      LexLeTransitive(x, y, z);
      LeAsc(x, z);
    }
    if LexLe(x, y) && LexLe(y, x) {
      LexLeAntisymmetric(x, y);
    }
  }

  lemma AscLe(x: string, y: string)
    requires StringAsc(x, y) <= 0
    ensures LexLe(x, y)
  {
    LexLeTotal(x, y);
    LexLeReflexive(x);
  }

  lemma LeAsc(x: string, y: string)
    requires LexLe(x, y)
    ensures StringAsc(x, y) <= 0
  {
    if LexLe(y, x) {
      LexLeAntisymmetric(x, y);
    }
  }

  /** The folder-first comparator: equal values tie, the folder type comes before any other
      value, and other values tie. */
  function FolderFirst(folder: string, x: string, y: string): int {
    if x == y then 0
    else if x == folder then -1
    else if y == folder then 1
    else 0
  }

  /** The reference: the folder type ranks 0 and every other value 1. */
  function Rank(folder: string, x: string): int {
    if x == folder then 0 else 1
  }

  /** The comparator compares ranks, so it is antisymmetric and transitive. */
  lemma FolderFirstByRank(folder: string, x: string, y: string)
    ensures var r := FolderFirst(folder, x, y);
            (r < 0 <==> Rank(folder, x) < Rank(folder, y))
            && (r > 0 <==> Rank(folder, x) > Rank(folder, y))
    ensures FolderFirst(folder, x, y) == -FolderFirst(folder, y, x)
  {
  }

  /** `cmistype-asc` and `cmistype-desc` of the extranet, on the "folder" type. */
  function CmisTypeAsc(x: string, y: string): (r: int)
    ensures r == FolderFirst("folder", x, y)
  {
    if x == y then 0 else if x == "folder" then -1 else if y == "folder" then 1 else 0
  }

  function CmisTypeDesc(x: string, y: string): (r: int)
    ensures r == FolderFirst("folder", x, y)
  {
    if x == y then 0 else if x == "folder" then -1 else if y == "folder" then 1 else 0
  }

  /** `sortFolderFirstCmp`, used for both directions of `cmistype` in the document tables. */
  const FolderType: string := "abilian.sbe.apps.documents.models.folder"

  function SortFolderFirstCmp(x: string, y: string): int {
    FolderFirst(FolderType, x, y)
  }

  /** A list ordered by a folder-first comparator (in either direction) has its folders
      first: no folder follows another type. */
  lemma FoldersFirst(folder: string, s: seq<string>)
    requires forall i, j :: 0 <= i < j < |s| ==> FolderFirst(folder, s[i], s[j]) <= 0
    ensures forall i, j :: 0 <= i < j < |s| && s[j] == folder ==> s[i] == folder
  {
  }

  /** Both directions of both folder-first comparators put the folder type first. */
  lemma FolderTypesComeFirst(x: string)
    ensures x != "folder" ==> CmisTypeAsc("folder", x) == -1 && CmisTypeDesc("folder", x) == -1
    ensures x != "folder" ==> CmisTypeAsc(x, "folder") == 1 && CmisTypeDesc(x, "folder") == 1
    ensures x != FolderType ==> SortFolderFirstCmp(FolderType, x) == -1 && SortFolderFirstCmp(x, FolderType) == 1
  {
  }

  // ---------------------------------------------------------------------------
  // AdvancedSearchFilters.serverParamsCallBack
  // ---------------------------------------------------------------------------

  /** The value of a filter's widget: one value, or an array of them. */
  datatype FilterValue = Scalar(v: string) | Many(vs: seq<string>)

  datatype Filter = Filter(name: string, value: FilterValue)

  datatype Param = Param(name: string, value: string)

  /** The values sent for a filter: a single value becomes a list of one. */
  function Values(v: FilterValue): (r: seq<string>)
    ensures v.Scalar? ==> r == [v.v]
    ensures v.Many? ==> r == v.vs
  {
    match v
    case Scalar(x) => [x]
    case Many(xs) => xs
  }

  /** One parameter per value of the filter, under the filter's name. */
  function Pushes(f: Filter): (r: seq<Param>)
    ensures |r| == |Values(f.value)|
    ensures forall k :: 0 <= k < |r| ==> r[k] == Param(f.name, Values(f.value)[k])
  {
    seq(|Values(f.value)|, k requires 0 <= k < |Values(f.value)| => Param(f.name, Values(f.value)[k]))
  }

  /** The reference: the parameters of each filter, filter after filter. */
  function Expected(fs: seq<Filter>): seq<Param>
    decreases |fs|
  {
    if |fs| == 0 then [] else Pushes(fs[0]) + Expected(fs[1..])
  }

  lemma {:induction false} ExpectedAppend(a: seq<Filter>, b: seq<Filter>)
    ensures Expected(a + b) == Expected(a) + Expected(b)
    decreases |a|
  {
    if |a| == 0 {
      assert a + b == b;
    } else {
      assert (a + b)[0] == a[0] && (a + b)[1..] == a[1..] + b;
      ExpectedAppend(a[1..], b);
    }
  }

  /** `serverParamsCallBack`: appends to the request's data one parameter per value of each
      filter, in filter order. */
  method ServerParams(filters: seq<Filter>, aoData: seq<Param>) returns (r: seq<Param>)
    ensures r == aoData + Expected(filters)
  {
    r := aoData;
    var i := 0;
    while i < |filters|
      invariant 0 <= i <= |filters|
      invariant r == aoData + Expected(filters[..i])
    {
      var f := filters[i];
      var vals := Values(f.value);
      var done := r;
      var j := 0;
      while j < |vals|
        invariant 0 <= j <= |vals|
        invariant r == done + Pushes(f)[..j]
      {
        PushesStep(done, f, j, r);
        r := r + [Param(f.name, vals[j])];
        j := j + 1;
      }
      ExpectedStep(aoData, filters, i, r);
      i := i + 1;
    }
    assert filters[..i] == filters;
  }

  lemma PushesStep(done: seq<Param>, f: Filter, j: nat, r: seq<Param>)
    requires j < |Values(f.value)| && r == done + Pushes(f)[..j]
    ensures r + [Param(f.name, Values(f.value)[j])] == done + Pushes(f)[..j + 1]
  {
    assert Pushes(f)[..j + 1] == Pushes(f)[..j] + [Param(f.name, Values(f.value)[j])];
  }

  lemma ExpectedStep(aoData: seq<Param>, fs: seq<Filter>, i: nat, r: seq<Param>)
    requires i < |fs| && r == aoData + Expected(fs[..i]) + Pushes(fs[i])[..|Values(fs[i].value)|]
    ensures r == aoData + Expected(fs[..i + 1])
  {
    assert Pushes(fs[i])[..|Values(fs[i].value)|] == Pushes(fs[i]);
    ExpectedAppend(fs[..i], [fs[i]]);
    assert fs[..i + 1] == fs[..i] + [fs[i]];
    assert Expected([fs[i]]) == Pushes(fs[i]) + Expected([]);
  }

  lemma PushesMembers(f: Filter, p: Param)
    ensures p in Pushes(f) <==> f.name == p.name && p.value in Values(f.value)
  {
    if f.name == p.name && p.value in Values(f.value) {
      var k :| 0 <= k < |Values(f.value)| && Values(f.value)[k] == p.value;
      assert Pushes(f)[k] == p;
    }
  }

  /** A parameter is sent exactly when some filter has that name and that value. */
  lemma {:induction false} ExpectedMembers(fs: seq<Filter>, p: Param)
    ensures p in Expected(fs) <==> exists f :: f in fs && f.name == p.name && p.value in Values(f.value)
    decreases |fs|
  {
    if |fs| > 0 {
      ExpectedMembers(fs[1..], p);
      PushesMembers(fs[0], p);
      assert forall f :: f in fs <==> f == fs[0] || f in fs[1..];
    }
  }
}
