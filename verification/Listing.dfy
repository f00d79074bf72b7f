/** `BasicCRUD.find`: one page of the records of a single table. */
module Listing {
  import opened Wrappers
  import opened Paging
  import C = Cursor

  datatype Request = Request(cursor: Option<string>, offset: Option<nat>, limit: nat)

  datatype Error = BadCursor

  function OffsetOf(r: Request): Option<nat> {
    if r.cursor.Some? then C.ParseOffset(r.cursor.value)
    else if r.offset.Some? then r.offset
    else Some(0)
  }

  /** What the database counts may be more than the rows: the count is corrected where the first
      page shows that it is too large. */
  function CountOf<T>(rows: seq<T>, total: nat, offset: nat, limit: nat): nat {
    if offset == 0 && |rows| < limit && |rows| < total then |rows| else total
  }

  function PageOf<T>(rows: seq<T>, total: nat, offset: nat, limit: nat): Page<T> {
    Page(Take(Drop(rows, offset), limit), CountOf(rows, total, offset, limit),
         if limit < |Drop(rows, offset)| then Some(C.PrintOffset(offset + limit)) else None)
  }

  /** Fetching one row more than the limit tells whether the page is the last one. */
  lemma SliceIsPage<T>(rows: seq<T>, offset: nat, limit: nat)
    ensures var results := Slice(rows, offset, offset + limit + 1);
            && Take(results, limit) == Take(Drop(rows, offset), limit)
            && (limit < |results| <==> limit < |Drop(rows, offset)|)
            && (offset == 0 && |results| <= limit ==> |results| == |rows|)
  {
  }

  /** The loop over the rows that fit on the page. */
  method Collect<T>(results: seq<T>, limit: nat) returns (items: seq<T>, count: nat)
    ensures items == Take(results, limit) && count == |items|
  {
    items, count := [], 0;
    while count < |results| && count < limit
      invariant count <= |results| && count <= limit
      invariant items == results[..count]
    {
      items := items + [results[count]];
      count := count + 1;
    }
  }

  /** `rows` are the records that match the filter and are open to the user, in order, and `total`
      is what the database counts. */
  method Fetch<T>(rows: seq<T>, total: nat, offset: nat, limit: nat) returns (page: Page<T>)
    ensures page == PageOf(rows, total, offset, limit)
  {
    var results := Slice(rows, offset, offset + limit + 1);
    var items, count := Collect(results, limit);
    SliceIsPage(rows, offset, limit);
    if |results| > limit {
      return Page(items, total, Some(C.PrintOffset(offset + limit)));
    } else if count < total && count < limit && offset == 0 {
      return Page(items, count, None);
    }
    return Page(items, total, None);
  }

  method Find<T>(rows: seq<T>, total: nat, r: Request) returns (answer: Result<Page<T>, Error>)
    ensures answer == match OffsetOf(r)
                      case None => Err(BadCursor)
                      case Some(offset) => Ok(PageOf(rows, total, offset, r.limit))
  {
    var offset: nat := 0;
    if r.cursor.Some? {
      var parsed := C.ParseOffset(r.cursor.value);
      if parsed.None? {
        return Err(BadCursor);
      }
      offset := parsed.value;
    } else if r.offset.Some? {
      offset := r.offset.value;
    }
    var page := Fetch(rows, total, offset, r.limit);
    return Ok(page);
  }

  /** A given offset asks for what a cursor printed for it asks for, no offset for what offset zero does, and a
      cursor wins over an offset. */
  lemma OffsetIsCursor(offset: nat, other: Option<nat>, limit: nat, limit': nat)
    ensures OffsetOf(Request(None, Some(offset), limit)) == Some(offset)
    ensures OffsetOf(Request(Some(C.PrintOffset(offset)), other, limit')) == OffsetOf(Request(None, Some(offset), limit))
    ensures OffsetOf(Request(None, None, limit)) == OffsetOf(Request(None, Some(0), limit))
  {
    C.ParsePrintOffset(offset);
  }

  /** A request is rejected exactly for a cursor that holds no number; otherwise its page has the rows from its
      offset on, as many as the limit allows. */
  lemma PageHolds<T>(rows: seq<T>, total: nat, offset: nat, limit: nat, k: nat)
    ensures var page := PageOf(rows, total, offset, limit);
            && (k < |page.items| <==> k < limit && offset + k < |rows|)
            && (k < |page.items| ==> page.items[k] == rows[offset + k])
  {
  }

  // --- following the cursors ----------------------------------------------------------------------------

  function Origin(cursor: Option<string>): Option<nat> {
    OffsetOf(Request(cursor, None, 0))
  }

  function Rest<T>(rows: seq<T>, cursor: Option<string>): seq<T> {
    match Origin(cursor)
    case None => []
    case Some(offset) => Drop(rows, offset)
  }

  function PageAt<T>(rows: seq<T>, total: nat, cursor: Option<string>, limit: nat): Page<T>
    requires Origin(cursor).Some?
  {
    PageOf(rows, total, Origin(cursor).value, limit)
  }

  lemma DropMore<T>(rows: seq<T>, offset: nat, limit: nat)
    ensures limit < |Drop(rows, offset)| ==> Drop(rows, offset + limit) == Drop(rows, offset)[limit..]
  {
  }

  /** A page holds the beginning of the rest, and its cursor leads to exactly what is then left. */
  lemma PageResumes<T>(rows: seq<T>, total: nat, cursor: Option<string>, limit: nat)
    requires Origin(cursor).Some?
    ensures var page, rest := PageAt(rows, total, cursor, limit), Rest(rows, cursor);
            && page.items == Take(rest, limit)
            && (page.next.Some? <==> limit < |rest|)
            && (page.next.Some? ==> Origin(page.next).Some? && Rest(rows, page.next) == rest[limit..])
  {
    var offset := Origin(cursor).value;
    C.ParsePrintOffset(offset + limit);
    DropMore(rows, offset, limit);
  }

  /** The pages a client gets by following the cursors until there is none. */
  function Walk<T>(rows: seq<T>, total: nat, cursor: Option<string>, limit: nat): (pages: seq<Page<T>>)
    requires Origin(cursor).Some? && 0 < limit
    ensures pages != []
    decreases |Rest(rows, cursor)|
  {
    var page := PageAt(rows, total, cursor, limit);
    PageResumes(rows, total, cursor, limit);
    if page.next.None? then [page] else [page] + Walk(rows, total, page.next, limit)
  }

  /** Following the cursors, whatever the database counts, yields what was left in order, each row
      once, in full pages but for the last one. */
  lemma {:induction false} WalkFrom<T>(rows: seq<T>, total: nat, cursor: Option<string>, limit: nat)
    requires Origin(cursor).Some? && 0 < limit
    ensures Complete(Walk(rows, total, cursor, limit), Rest(rows, cursor), limit)
    decreases |Rest(rows, cursor)|
  {
    var page, rest := PageAt(rows, total, cursor, limit), Rest(rows, cursor);
    PageResumes(rows, total, cursor, limit);
    if page.next.None? {
      OnlyPage(page, limit);
    } else {
      WalkFrom(rows, total, page.next, limit);
      OneMorePage(page, Walk(rows, total, page.next, limit), rest, limit);
    }
  }

  lemma WalkIsComplete<T>(rows: seq<T>, total: nat, limit: nat)
    requires 0 < limit
    ensures Complete(Walk(rows, total, None, limit), rows, limit)
  {
    WalkFrom(rows, total, None, limit);
  }

  lemma {:induction false} CountsLater<T>(rows: seq<T>, total: nat, cursor: Option<string>, limit: nat, i: nat)
    requires Origin(cursor).Some? && 0 < Origin(cursor).value && 0 < limit
    requires i < |Walk(rows, total, cursor, limit)|
    ensures Walk(rows, total, cursor, limit)[i].count == total
    decreases i
  {
    if 0 < i {
      PageResumes(rows, total, cursor, limit);
      C.ParsePrintOffset(Origin(cursor).value + limit);
      CountsLater(rows, total, PageAt(rows, total, cursor, limit).next, limit, i - 1);
    }
  }

  /** All pages of a walk tell the same count. If the database counts too many, they tell the number of rows
      if and only if that is less than the limit, however many pages there are. */
  lemma {:induction false} CountOverWalk<T>(rows: seq<T>, total: nat, limit: nat, i: nat)
    requires 0 < limit && i < |Walk(rows, total, None, limit)|
    ensures Walk(rows, total, None, limit)[i].count == if |rows| < limit && |rows| < total then |rows| else total
  {
    PageResumes(rows, total, None, limit);
    if 0 < i {
      var next := PageAt(rows, total, None, limit).next;
      C.ParsePrintOffset(limit);
      CountsLater(rows, total, next, limit, i - 1);
    }
  }

  /** A cursor gets a client further, wherever it stands, if and only if the limit is positive: with
      a limit of zero the cursor leads back to the same rows. */
  lemma ProgressExactlyWhen<T>(rows: seq<T>, total: nat, cursor: Option<string>, limit: nat)
    requires Rest(rows, cursor) != []
    ensures var next := PageAt(rows, total, cursor, limit).next;
            (next.None? || |Rest(rows, next)| < |Rest(rows, cursor)|) <==> 0 < limit
  {
    PageResumes(rows, total, cursor, limit);
  }
}
