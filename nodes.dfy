/** The request helpers of the node-browsing views
    (papermerge/core/views/nodes.py): reading the page number, the window
    of page links a listing shows, the ordering of a listing, and the
    cache key of a user's readable nodes. */
module Nodes {
  import opened Common
  import opened Decimal

  /** The query parameters of a GET request. */
  type QueryDict = map<string, string>

  function Min(a: int, b: int): int
  {
    if a <= b then a else b
  }

  // ---------------------------------------------------------------------
  // _get_page_number

  /** `_get_page_number(request_get)`: the `page` parameter as an integer,
      1 when it is missing or empty; `int()` raises ValueError on text
      that is not a number. */
  function GetPageNumber(query: QueryDict): (r: Result<int>)
    ensures "page" !in query || query["page"] == "" ==> r == Ok(1)
    ensures r.Err? ==> r.error == ValueError
    ensures r.Err? <==> "page" in query && query["page"] != "" && ParseInt(query["page"]).Err?
  {
    if "page" !in query || query["page"] == "" then Ok(1) else ParseInt(query["page"])
  }

  /** A page parameter holding the text of a number yields that number. */
  lemma GetPageNumberShown(query: QueryDict, n: int)
    requires "page" in query && query["page"] == ShowInt(n)
    ensures GetPageNumber(query) == Ok(n)
  {
    ParseShowInt(n);
  }

  /** A page parameter that is not a number is refused. */
  lemma GetPageNumberRejects(query: QueryDict)
    requires "page" in query && query["page"] != ""
    requires exists i :: 0 <= i < |Unsigned(query["page"])| && !IsDigit(Unsigned(query["page"])[i])
    ensures GetPageNumber(query) == Err(ValueError)
  {
  }

  // ---------------------------------------------------------------------
  // _get_pagination_dict

  /** What the view reads from the paginator's page object: its number and
      whether a previous and a next page exist. */
  datatype PageObj = PageObj(number: int, hasPrevious: bool, hasNext: bool)

  datatype PageLinks = PageLinks(
    hasPrevious: bool,
    hasNext: bool,
    previousPageNumber: int,
    nextPageNumber: int)

  datatype Pagination = Pagination(pageNumber: int, pages: seq<int>, numPages: int, page: PageLinks)

  /** The page numbers linked from a listing, as written: all pages up to
      six when there are at most seven pages or the current page is among
      the first four, the last seven when the current page is among the
      last four, else the current page with three on either side. */
  function Window(numPages: int, pageNumber: int): (r: seq<int>)
    ensures |r| <= 7
    ensures forall i :: 0 <= i < |r| ==> 1 <= r[i] <= numPages
    ensures forall i :: 0 < i < |r| ==> r[i] == r[i - 1] + 1
  {
    if numPages <= 7 || pageNumber <= 4 then Range(1, Min(numPages + 1, 7) - 1)
    else if pageNumber > numPages - 4 then Range(numPages - 6, numPages)
    else Range(pageNumber - 3, pageNumber + 3)
  }

  /** How many links the window holds: seven once there are more than
      seven pages and the current page is past the fourth, otherwise
      every page up to the sixth. */
  lemma WindowCount(numPages: int, pageNumber: int)
    ensures numPages > 7 && pageNumber > 4 ==> |Window(numPages, pageNumber)| == 7
    ensures numPages <= 7 || pageNumber <= 4 ==>
      |Window(numPages, pageNumber)| == if numPages < 0 then 0 else Min(numPages, 6)
  {
  }

  /** The window as written shows the current page in every case but one:
      the seventh page of a seven-page listing. */
  lemma WindowContainsCurrent(numPages: int, pageNumber: int)
    requires 1 <= pageNumber <= numPages
    ensures pageNumber in Window(numPages, pageNumber) <==> !(numPages == 7 && pageNumber == 7)
  {
    var r := Window(numPages, pageNumber);
    if numPages <= 7 || pageNumber <= 4 {
      if pageNumber <= Min(numPages, 6) {
        assert r[pageNumber - 1] == pageNumber;
      }
    } else if pageNumber > numPages - 4 {
      assert r[pageNumber - (numPages - 6)] == pageNumber;
    } else {
      assert r[3] == pageNumber;
    }
  }

  /** The window the comments beside the code describe: every page when
      there are at most seven, the first seven while the current page is
      among the first four. */
  function CorrectedWindow(numPages: int, pageNumber: int): (r: seq<int>)
    ensures |r| <= 7
    ensures forall i :: 0 <= i < |r| ==> 1 <= r[i] <= numPages
    ensures forall i :: 0 < i < |r| ==> r[i] == r[i - 1] + 1
    ensures numPages <= 7 ==> r == Range(1, numPages)
  {
    if numPages <= 7 || pageNumber <= 4 then Range(1, Min(numPages, 7))
    else if pageNumber > numPages - 4 then Range(numPages - 6, numPages)
    else Range(pageNumber - 3, pageNumber + 3)
  }

  /** The corrected window always links the current page. */
  lemma CorrectedWindowContainsCurrent(numPages: int, pageNumber: int)
    requires 1 <= pageNumber <= numPages
    ensures pageNumber in CorrectedWindow(numPages, pageNumber)
  {
    var r := CorrectedWindow(numPages, pageNumber);
    if numPages <= 7 || pageNumber <= 4 {
      assert r[pageNumber - 1] == pageNumber;
    } else if pageNumber > numPages - 4 {
      assert r[pageNumber - (numPages - 6)] == pageNumber;
    } else {
      assert r[3] == pageNumber;
    }
  }

  /** The corrected window links seven pages whenever there are seven. */
  lemma CorrectedWindowCount(numPages: int, pageNumber: int)
    ensures numPages >= 7 ==> |CorrectedWindow(numPages, pageNumber)| == 7
  {
  }

  /** Below seven pages, and past the fourth page of a longer listing, the
      two windows agree. */
  lemma CorrectedWindowAgrees(numPages: int, pageNumber: int)
    requires numPages < 7 || (numPages > 7 && pageNumber > 4)
    ensures CorrectedWindow(numPages, pageNumber) == Window(numPages, pageNumber)
  {
  }

  /** `_get_pagination_dict(paginator, page_number)`: the requested page
      number, the window of links, the number of pages, and the previous
      and next page numbers, -1 standing for "none". */
  function PaginationDict(numPages: int, pageNumber: int, page: PageObj): (r: Pagination)
    ensures r.pageNumber == pageNumber && r.numPages == numPages
    ensures r.pages == Window(numPages, pageNumber)
    ensures r.page.hasPrevious == page.hasPrevious && r.page.hasNext == page.hasNext
    ensures page.hasPrevious ==> r.page.previousPageNumber == page.number - 1
    ensures page.hasNext ==> r.page.nextPageNumber == page.number + 1
    ensures page.number >= 1 ==>
      (r.page.previousPageNumber == -1 <==> !page.hasPrevious)
      && (r.page.nextPageNumber == -1 <==> !page.hasNext)
  {
    var previous := if page.hasPrevious then page.number - 1 else -1;
    var next := if page.hasNext then page.number + 1 else -1;
    Pagination(pageNumber, Window(numPages, pageNumber), numPages,
      PageLinks(page.hasPrevious, page.hasNext, previous, next))
  }

  // ---------------------------------------------------------------------
  // _order_by

  /** The ordering applied to a listing of nodes. */
  datatype Ordering =
    | Unordered                    // the listing is returned as it came
    | ByField(field: string)       // by a column; a leading '-' means descending
    | ByLowerTitle(ascending: bool) // by the lower-cased title

  /** The order-by values the view accepts. */
  const OrderKeys: seq<string> := ["date", "-date", "title", "-title", "type", "-type"]

  /** Each accepted value and the column it orders by. */
  const FieldMap: map<string, string> := map[
    "type" := "polymorphic_ctype_id",
    "-type" := "-polymorphic_ctype_id",
    "date" := "created_at",
    "-date" := "-created_at",
    "title" := "title",
    "-title" := "-title"]

  /** The `order-by` parameter, "-type" when it is missing or empty. */
  function OrderKey(query: QueryDict): (k: string)
    ensures k != ""
  {
    if "order-by" in query && query["order-by"] != "" then query["order-by"] else "-type"
  }

  /** `_order_by(nodes, request_get_dict)`. */
  function OrderBy(query: QueryDict): (r: Ordering)
    ensures r != Unordered <==> OrderKey(query) in OrderKeys
  {
    var key := OrderKey(query);
    if key in OrderKeys then
      var field := FieldMap[key];
      if field == "title" then ByLowerTitle(true)
      else if field == "-title" then ByLowerTitle(false)
      else ByField(field)
    else Unordered
  }

  /** Without an `order-by` value, folders and documents are ordered by
      type, descending. */
  lemma OrderByDefault(query: QueryDict)
    requires "order-by" !in query || query["order-by"] == ""
    ensures OrderBy(query) == ByField("-polymorphic_ctype_id")
  {
  }

  /** The titles are compared case-insensitively, the other keys order by
      their column, and the sign of the key gives the direction. */
  lemma OrderByCases(query: QueryDict)
    ensures OrderKey(query) == "title" <==> OrderBy(query) == ByLowerTitle(true)
    ensures OrderKey(query) == "-title" <==> OrderBy(query) == ByLowerTitle(false)
    ensures OrderKey(query) == "date" <==> OrderBy(query) == ByField("created_at")
    ensures OrderKey(query) == "-date" <==> OrderBy(query) == ByField("-created_at")
    ensures OrderKey(query) == "type" <==> OrderBy(query) == ByField("polymorphic_ctype_id")
    ensures OrderKey(query) == "-type" <==> OrderBy(query) == ByField("-polymorphic_ctype_id")
  {
  }

  // ---------------------------------------------------------------------
  // _get_nodes_perms_key

  /** `parent_id or ''`: no parent and parent 0 both render as empty. */
  function ParentText(parentId: Option<int>): (r: string)
    ensures r == "" <==> parentId == None || parentId == Some(0)
  {
    match parentId
    case None => ""
    case Some(p) => if p == 0 then "" else ShowInt(p)
  }

  /** `_get_nodes_perms_key(user, parent_id)`: the cache key of the
      permissions of the nodes a user reads under a folder. */
  function PermsKey(uid: int, parentId: Option<int>): (r: string)
    ensures |r| > 5 && r[..5] == "user_"
    ensures |r| >= 5 + |ShowInt(uid)| + 11 + 15
    ensures r[5 + |ShowInt(uid)|..5 + |ShowInt(uid)| + 11] == "_parent_id_"
    ensures r[|r| - 15..] == "_readable_nodes"
  {
    FieldsOfLayout("user_", ShowInt(uid), "_parent_id_", ParentText(parentId), "_readable_nodes");
    "user_" + ShowInt(uid) + ("_parent_id_" + ParentText(parentId) + "_readable_nodes")
  }

  /** The user field of a key reads back as the user's id, and the
      parent field as the parent's text. */
  lemma PermsKeyFields(uid: int, parentId: Option<int>)
    ensures var r := PermsKey(uid, parentId);
      var u := |ShowInt(uid)|;
      ParseInt(r[5..5 + u]) == Ok(uid)
      && r[5 + u + 11..|r| - 15] == ParentText(parentId)
  {
    FieldsOfLayout("user_", ShowInt(uid), "_parent_id_", ParentText(parentId), "_readable_nodes");
    ParseShowInt(uid);
  }

  /** In a key laid out as `a u b p c`, the fixed parts sit at their
      offsets and the two variable fields are found between them. */
  lemma FieldsOfLayout(a: string, u: string, b: string, p: string, c: string)
    ensures var r := a + u + (b + p + c);
      |r| == |a| + |u| + |b| + |p| + |c|
      && r[..|a|] == a && r[|a| + |u|..|a| + |u| + |b|] == b && r[|r| - |c|..] == c
      && r[|a|..|a| + |u|] == u && r[|a| + |u| + |b|..|r| - |c|] == p
  {
    var r := a + u + (b + p + c);
    assert r == a + u + b + p + c;
    assert r[|a|..|a| + |u|] == u;
  }

  /** The parent a key stands for, 0 standing for the root. */
  function ParentOf(parentId: Option<int>): int
  {
    match parentId
    case None => 0
    case Some(p) => p
  }

  /** The text of a number holds no underscore. */
  lemma ShowIntNoUnderscore(n: int)
    ensures forall i :: 0 <= i < |ShowInt(n)| ==> ShowInt(n)[i] != '_'
  {
    var s := ShowInt(n);
    if n < 0 {
      forall i | 0 <= i < |s| ensures s[i] != '_' {
        if i > 0 { assert s[i] == ShowNat(-n)[i - 1]; }
      }
    }
  }

  /** Two underscore-free heads, each followed by a tail starting with an
      underscore, split a joined string the same way. */
  lemma {:induction false} SplitAtUnderscore(a: string, x: string, b: string, y: string)
    requires forall i :: 0 <= i < |a| ==> a[i] != '_'
    requires forall i :: 0 <= i < |b| ==> b[i] != '_'
    requires x != [] && x[0] == '_' && y != [] && y[0] == '_'
    requires a + x == b + y
    ensures a == b && x == y
  {
    assert a == (a + x)[..|a|];
    assert b == (b + y)[..|b|];
    assert x == (a + x)[|a|..];
    assert y == (b + y)[|b|..];
  }

  /** Distinct numbers have distinct texts. */
  lemma ShowIntInjective(a: int, b: int)
    requires ShowInt(a) == ShowInt(b)
    ensures a == b
  {
    ParseShowInt(a);
    ParseShowInt(b);
  }

  lemma CancelPrefix(p: string, u: string, v: string)
    requires p + u == p + v
    ensures u == v
  {
    assert u == (p + u)[|p|..];
    assert v == (p + v)[|p|..];
  }

  lemma CancelSuffix(u: string, v: string, s: string)
    requires u + s == v + s
    ensures u == v
  {
    assert u == (u + s)[..|u|];
    assert v == (v + s)[..|v|];
  }

  /** The key layout splits back into its user and parent texts. */
  lemma {:induction false} KeyLayoutInjective(a1: string, t1: string, a2: string, t2: string)
    requires forall i :: 0 <= i < |a1| ==> a1[i] != '_'
    requires forall i :: 0 <= i < |a2| ==> a2[i] != '_'
    requires "user_" + a1 + ("_parent_id_" + t1 + "_readable_nodes")
      == "user_" + a2 + ("_parent_id_" + t2 + "_readable_nodes")
    ensures a1 == a2 && t1 == t2
  {
    var x1 := "_parent_id_" + t1 + "_readable_nodes";
    var x2 := "_parent_id_" + t2 + "_readable_nodes";
    assert "user_" + a1 + x1 == "user_" + (a1 + x1);
    assert "user_" + a2 + x2 == "user_" + (a2 + x2);
    CancelPrefix("user_", a1 + x1, a2 + x2);
    SplitAtUnderscore(a1, x1, a2, x2);
    CancelSuffix("_parent_id_" + t1, "_parent_id_" + t2, "_readable_nodes");
    CancelPrefix("_parent_id_", t1, t2);
  }

  /** Equal keys mean the same user and the same parent: the cache never
      mixes the permissions of two users or two folders. */
  lemma {:induction false} PermsKeyInjective(u1: int, p1: Option<int>, u2: int, p2: Option<int>)
    requires PermsKey(u1, p1) == PermsKey(u2, p2)
    ensures u1 == u2 && ParentOf(p1) == ParentOf(p2)
  {
    ShowIntNoUnderscore(u1);
    ShowIntNoUnderscore(u2);
    KeyLayoutInjective(ShowInt(u1), ParentText(p1), ShowInt(u2), ParentText(p2));
    ShowIntInjective(u1, u2);
    if ParentText(p1) != "" {
      ShowIntInjective(p1.value, p2.value);
    }
  }

  /** No parent and parent 0 share a key: both address the root listing. */
  lemma PermsKeyRootAlias(uid: int)
    ensures PermsKey(uid, None) == PermsKey(uid, Some(0))
  {
  }
}
