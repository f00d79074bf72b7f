/** `Trashcan.find`: one page of the disabled records of all resources, table after table, with a
    cursor from which the next page goes on. */
module Trashcan {
  import opened Wrappers
  import opened Texts
  import C = Cursor
  import opened Paging

  /** A resource with the IDs of its rows, as the query returns them in order: disabled, matching the
      filter and open to the user. Tables come in the order in which controllers are registered. */
  datatype Table = Table(resource: string, rows: seq<string>)

  datatype Item = Item(id: string, resource: string)

  datatype Error = BadCursor | UseCursor | NoSuchModel

  const EXCLUDED: set<string> := {"auth", "scope", "settings", "trashcan", "tz"}

  function ItemOf(resource: string, row: string): Item {
    Item(C.CompositeId(resource, row), resource)
  }

  function ItemsOf(resource: string, rows: seq<string>): (items: seq<Item>)
    ensures |items| == |rows|
  {
    seq(|rows|, i requires 0 <= i < |rows| => ItemOf(resource, rows[i]))
  }

  predicate Listed(resource: string, start: string) {
    resource !in EXCLUDED && AtMost(start, resource)
  }

  /** The tables to go through from the resource `start` on. */
  function Selected(tables: seq<Table>, start: string): seq<Table> {
    if tables == [] then []
    else (if Listed(tables[0].resource, start) then [tables[0]] else []) + Selected(tables[1..], start)
  }

  function Named(tables: seq<Table>, resource: string): seq<Table> {
    if tables == [] then []
    else if tables[0].resource == resource then [tables[0]]
    else Named(tables[1..], resource)
  }

  /** Everything there is, in order. */
  function Flatten(tables: seq<Table>): seq<Item> {
    if tables == [] then [] else ItemsOf(tables[0].resource, tables[0].rows) + Flatten(tables[1..])
  }

  /** What remains from an offset into the first table on. An offset past the end of a table is
      applied to the next one, until a table has a row there. */
  function Pending(tables: seq<Table>, offset: nat): seq<Item> {
    if tables == [] then []
    else if offset < |tables[0].rows| then
      ItemsOf(tables[0].resource, tables[0].rows[offset..]) + Flatten(tables[1..])
    else Pending(tables[1..], offset)
  }

  /** The table and offset of the pending item number `skip`. */
  function Place(tables: seq<Table>, offset: nat, skip: nat): Option<C.Position> {
    if tables == [] then None
    else
      var rows := |tables[0].rows|;
      if offset >= rows then Place(tables[1..], offset, skip)
      else if offset + skip < rows then Some(C.Position(tables[0].resource, offset + skip))
      else Place(tables[1..], 0, skip - (rows - offset))
  }

  /** The page the API promises for the tables from `start` on. */
  function PageOf(tables: seq<Table>, offset: nat, limit: nat): Page<Item> {
    var items, place := Take(Pending(tables, offset), limit), Place(tables, offset, limit);
    Page(items, |items|, if place.Some? then Some(C.Print(place.value)) else None)
  }

  datatype Request = Request(cursor: Option<string>, offset: Option<nat>, resource: Option<string>, limit: nat)

  /** The answer to a request. Only the cursor's offset counts when a resource is asked for. */
  function Answer(tables: seq<Table>, r: Request): Result<Page<Item>, Error> {
    var position := if r.cursor.Some? then C.Parse(r.cursor.value)
                    else Some(C.Position("0", if r.offset.Some? then r.offset.value else 0));
    if position.None? then Err(BadCursor)
    else if r.resource.Some? then
      var named := Named(tables, r.resource.value);
      if named == [] then Err(NoSuchModel) else Ok(PageOf(named, position.value.offset, r.limit))
    else if r.offset.Some? then Err(UseCursor)
    else Ok(PageOf(Selected(tables, position.value.resource), position.value.offset, r.limit))
  }

  lemma OneMoreItem(resource: string, rows: seq<string>, row: string)
    ensures ItemsOf(resource, rows + [row]) == ItemsOf(resource, rows) + [ItemOf(resource, row)]
  {
  }

  /** The loop over the rows of one table, which stops at the first row that does not fit on the
      page. */
  method Append(items: seq<Item>, offset: nat, resource: string, results: seq<string>, limit: nat)
    returns (longer: seq<Item>, next: nat, full: bool)
    requires |items| <= limit
    ensures full <==> limit - |items| < |results|
    ensures var taken := if full then results[..limit - |items|] else results;
            longer == items + ItemsOf(resource, taken) && next == offset + |taken|
  {
    longer, next := items, offset;
    var i, look := 0, limit - |items| + 1;
    while i < |results| && i < look
      invariant 0 <= i <= |results| && i <= limit - |items|
      invariant next == offset + i
      invariant longer == items + ItemsOf(resource, results[..i])
    {
      if |longer| >= limit {
        return longer, next, true;
      }
      assert results[..i + 1] == results[..i] + [results[i]];
      OneMoreItem(resource, results[..i], results[i]);
      longer := longer + [ItemOf(resource, results[i])];
      next := next + 1;
      i := i + 1;
    }
    assert results[..i] == results;
    return longer, next, false;
  }

  /** `items` are on the page, and the tables from r on, from the offset on, hold the others. */
  ghost predicate OnTrack(tables: seq<Table>, start: nat, limit: nat, items: seq<Item>, r: nat, offset: nat) {
    && r <= |tables| && |items| <= limit
    && Pending(tables, start) == items + Pending(tables[r..], offset)
    && Place(tables, start, limit) == Place(tables[r..], offset, limit - |items|)
    && (items != [] ==> offset == 0)
  }

  lemma {:induction false} FlattenIsPending(tables: seq<Table>)
    ensures Pending(tables, 0) == Flatten(tables)
  {
    if tables != [] {
      FlattenIsPending(tables[1..]);
      assert tables[0].rows[0..] == tables[0].rows;
    }
  }

  lemma StartsOnTrack(tables: seq<Table>, start: nat, limit: nat)
    ensures OnTrack(tables, start, limit, [], 0, start)
  {
    assert tables[0..] == tables;
    assert [] + Pending(tables, start) == Pending(tables, start);
  }

  /** The page becomes full within table r, and another row turns up in it. */
  lemma FullPage(tables: seq<Table>, start: nat, limit: nat, before: seq<Item>, r: nat, from: nat,
                 results: seq<string>, items: seq<Item>)
    requires OnTrack(tables, start, limit, before, r, from) && r < |tables|
    requires results == Slice(tables[r].rows, from, from + limit + 1) && limit - |before| < |results|
    requires items == before + ItemsOf(tables[r].resource, results[..limit - |before|])
    ensures items == Take(Pending(tables, start), limit)
    ensures Place(tables, start, limit) == Some(C.Position(tables[r].resource, from + (limit - |before|)))
  {
    var table, room := tables[r], limit - |before|;
    assert tables[r..][0] == table;
    var whole := ItemsOf(table.resource, table.rows[from..]);
    assert whole[..room] == ItemsOf(table.resource, results[..room]);
    assert Pending(tables, start)[..limit] == before + whole[..room];
  }

  /** Table r has no more rows than fit on the page. */
  lemma WholeTable(tables: seq<Table>, start: nat, limit: nat, before: seq<Item>, r: nat, from: nat,
                   results: seq<string>, items: seq<Item>)
    requires OnTrack(tables, start, limit, before, r, from) && r < |tables|
    requires results == Slice(tables[r].rows, from, from + limit + 1) && |results| <= limit - |before|
    requires items == before + ItemsOf(tables[r].resource, results)
    ensures OnTrack(tables, start, limit, items, r + 1, if items != [] then 0 else from)
    ensures items == [] ==> results == []
  {
    assert from < |tables[r].rows| ==> results == tables[r].rows[from..];
    assert tables[r..][0] == tables[r] && tables[r..][1..] == tables[r + 1..];
    FlattenIsPending(tables[r + 1..]);
    if results == [] {
      assert items == before;
    }
  }

  lemma AllTables(tables: seq<Table>, start: nat, limit: nat, items: seq<Item>, offset: nat)
    requires OnTrack(tables, start, limit, items, |tables|, offset)
    ensures items == Take(Pending(tables, start), limit) && Place(tables, start, limit) == None
  {
    assert tables[|tables|..] == [];
    assert items + [] == items;
  }

  /** One turn of the loop over the tables: fetch one row more than the limit and append rows until the
      page is full. */
  method AppendTable(tables: seq<Table>, start: nat, limit: nat, before: seq<Item>, r: nat, from: nat)
    returns (items: seq<Item>, offset: nat, full: bool)
    requires |before| <= limit && r < |tables| && OnTrack(tables, start, limit, before, r, from)
    ensures full ==>
              && items == Take(Pending(tables, start), limit)
              && Place(tables, start, limit) == Some(C.Position(tables[r].resource, offset))
    ensures !full ==> |items| <= limit && OnTrack(tables, start, limit, items, r + 1, offset)
  {
    var results := Slice(tables[r].rows, from, from + limit + 1);
    items, offset, full := Append(before, from, tables[r].resource, results, limit);
    if full {
      FullPage(tables, start, limit, before, r, from, results, items);
    } else {
      WholeTable(tables, start, limit, before, r, from, results, items);
      if items != [] {
        offset := 0;
      }
    }
  }

  /** The loop over the tables, which ends at the first row that does not fit on the page and answers
      with its place. */
  method Collect(tables: seq<Table>, start: nat, limit: nat) returns (items: seq<Item>, place: Option<C.Position>)
    ensures items == Take(Pending(tables, start), limit)
    ensures place == Place(tables, start, limit)
  {
    items := [];
    var offset: nat := start;
    StartsOnTrack(tables, start, limit);
    for r := 0 to |tables|
      invariant |items| <= limit && OnTrack(tables, start, limit, items, r, offset)
    {
      var full;
      items, offset, full := AppendTable(tables, start, limit, items, r, offset);
      if full {
        return items, Some(C.Position(tables[r].resource, offset));
      }
    }
    AllTables(tables, start, limit, items, offset);
    return items, None;
  }

  method Find(tables: seq<Table>, r: Request) returns (answer: Result<Page<Item>, Error>)
    ensures answer == Answer(tables, r)
  {
    var start := "0";
    var offset: nat := 0;
    if r.cursor.Some? {
      var position := C.Parse(r.cursor.value);
      if position.None? {
        return Err(BadCursor);
      }
      start, offset := position.value.resource, position.value.offset;
    } else if r.offset.Some? {
      offset := r.offset.value;
    }
    var resources;
    if r.resource.Some? {
      resources := Named(tables, r.resource.value);
      if resources == [] {
        return Err(NoSuchModel);
      }
    } else {
      if r.offset.Some? {
        return Err(UseCursor);
      }
      resources := Selected(tables, start);
    }
    var items, place := Collect(resources, offset, r.limit);
    return Ok(Page(items, |items|, if place.Some? then Some(C.Print(place.value)) else None));
  }

  // --- following the cursors ---------------------------------------------------------------------------

  /** A place is where the rest begins, if there is a rest. */
  lemma {:induction false} PlaceBeginsRest(tables: seq<Table>, offset: nat, skip: nat) returns (i: nat)
    ensures Place(tables, offset, skip).Some? <==> skip < |Pending(tables, offset)|
    ensures var place := Place(tables, offset, skip);
            place.Some? ==>
              && i < |tables| && tables[i].resource == place.value.resource
              && Pending(tables[i..], place.value.offset) == Pending(tables, offset)[skip..]
  {
    i := 0;
    if tables != [] {
      var rows := tables[0].rows;
      var before, after := ItemsOf(tables[0].resource, rows[if offset < |rows| then offset else |rows|..]), tables[1..];
      if |rows| <= offset {
        i := PlaceBeginsRest(after, offset, skip);
        i := i + 1;
        assert i < |tables| ==> tables[i..] == after[i - 1..];
      } else {
        FlattenIsPending(after);
        assert Pending(tables, offset) == before + Flatten(after);
        if offset + skip < |rows| {
          assert tables[0..] == tables;
          assert before[skip..] == ItemsOf(tables[0].resource, rows[offset + skip..]);
          assert (before + Flatten(after))[skip..] == before[skip..] + Flatten(after);
        } else {
          i := PlaceBeginsRest(after, 0, skip - (|rows| - offset));
          i := i + 1;
          assert i < |tables| ==> tables[i..] == after[i - 1..];
          assert skip <= |Pending(tables, offset)| ==>
              (before + Flatten(after))[skip..] == Flatten(after)[skip - |before|..];
        }
      }
    }
  }

  ghost predicate SortedNames(tables: seq<Table>) {
    forall i, j | 0 <= i < j < |tables| :: Less(tables[i].resource, tables[j].resource)
  }

  /** Names that a cursor can carry. */
  ghost predicate PrintableNames(tables: seq<Table>) {
    forall i | 0 <= i < |tables| :: C.IsAscii(tables[i].resource) && ':' !in tables[i].resource
  }

  lemma {:induction false} SelectedIsSubset(tables: seq<Table>, start: string, i: nat) returns (j: nat)
    requires i < |Selected(tables, start)|
    ensures j < |tables| && tables[j] == Selected(tables, start)[i] && Listed(tables[j].resource, start)
  {
    var listed := Listed(tables[0].resource, start);
    if listed && i == 0 {
      j := 0;
    } else {
      j := SelectedIsSubset(tables[1..], start, if listed then i - 1 else i);
      j := j + 1;
    }
  }

  lemma {:induction false} SelectedAll(tables: seq<Table>, start: string, start': string)
    requires forall i | 0 <= i < |tables| :: AtMost(start, tables[i].resource) && AtMost(start', tables[i].resource)
    ensures Selected(tables, start) == Selected(tables, start')
  {
    if tables != [] {
      SelectedAll(tables[1..], start, start');
    }
  }

  lemma AtMostTransitive(a: string, b: string, c: string)
    requires AtMost(a, b) && AtMost(b, c)
    ensures AtMost(a, c) && (a != b || b != c ==> !AtMost(c, a))
  {
    if Less(a, b) && Less(b, c) {
      LessTransitive(a, b, c);
    }
    LessIsStrict(a, c);
    LessIsStrict(a, b);
    LessIsStrict(b, c);
  }

  /** With names in order, selecting from the name of table i on leaves what the selection already
      had from table i on. */
  lemma {:induction false} SelectedFrom(tables: seq<Table>, start: string, i: nat)
    requires SortedNames(tables) && i < |Selected(tables, start)|
    ensures var selected := Selected(tables, start); Selected(tables, selected[i].resource) == selected[i..]
  {
    var selected, head, rest := Selected(tables, start), tables[0].resource, tables[1..];
    var name := selected[i].resource;
    var j := SelectedIsSubset(tables, start, i);
    LessIsStrict(head, name);
    if Listed(head, start) {
      if i == 0 {
        forall k | 0 <= k < |rest| ensures AtMost(head, rest[k].resource) && AtMost(start, rest[k].resource) {
          AtMostTransitive(start, head, rest[k].resource);
        }
        SelectedAll(rest, start, head);
      } else {
        var k := SelectedIsSubset(rest, start, i - 1);
        SelectedFrom(rest, start, i - 1);
        LessIsStrict(head, rest[k].resource);
        assert selected[i..] == Selected(rest, start)[i - 1..];
      }
    } else {
      if head !in EXCLUDED && AtMost(name, head) {
        AtMostTransitive(start, name, head);
      }
      SelectedFrom(rest, start, i);
    }
  }

  /** Where a request's cursor points; the first request starts at the resource "0". */
  function Origin(cursor: Option<string>): Option<C.Position> {
    if cursor.Some? then C.Parse(cursor.value) else Some(C.Position("0", 0))
  }

  /** The tables that a request goes through: those of one resource, or all that are listed from a name on. */
  function Chosen(tables: seq<Table>, resource: Option<string>, start: string): seq<Table> {
    if resource.Some? then Named(tables, resource.value) else Selected(tables, start)
  }

  /** What is still to come for a client that sends this cursor. */
  function Rest(tables: seq<Table>, resource: Option<string>, cursor: Option<string>): seq<Item> {
    match Origin(cursor)
    case None => []
    case Some(position) => Pending(Chosen(tables, resource, position.resource), position.offset)
  }

  ghost predicate Has(tables: seq<Table>, resource: string) {
    exists t | t in tables :: t.resource == resource
  }

  /** A resource is named by the first table of that name. */
  lemma {:induction false} NamedExactly(tables: seq<Table>, resource: string)
    ensures Named(tables, resource) == [] <==> !Has(tables, resource)
    ensures Named(tables, resource) != [] ==>
              exists i :: 0 <= i < |tables| && Named(tables, resource) == [tables[i]] && tables[i].resource == resource &&
                          forall j | 0 <= j < i :: tables[j].resource != resource
  {
    if tables != [] {
      NamedExactly(tables[1..], resource);
      assert tables == [tables[0]] + tables[1..];
      if tables[0].resource != resource && Named(tables[1..], resource) != [] {
        var i :| 0 <= i < |tables[1..]| && Named(tables[1..], resource) == [tables[1..][i]]
            && tables[1..][i].resource == resource && forall j | 0 <= j < i :: tables[1..][j].resource != resource;
        assert tables[i + 1] == tables[1..][i];
        assert forall j | 1 <= j < i + 1 :: tables[j] == tables[1..][j - 1];
      }
    }
  }

  ghost predicate DistinctNames(tables: seq<Table>) {
    forall i, j | 0 <= i < j < |tables| :: tables[i].resource != tables[j].resource
  }

  lemma NamedAlone(tables: seq<Table>, t: Table)
    requires DistinctNames(tables) && t in tables
    ensures Named(tables, t.resource) == [t]
  {
    NamedExactly(tables, t.resource);
  }

  /** What a client needs for its cursors to lead on: names that they can carry, and in order where all
      resources are listed. */
  ghost predicate Resumable(tables: seq<Table>, resource: Option<string>) {
    && PrintableNames(tables)
    && (match resource
        case None => SortedNames(tables)
        case Some(name) => Has(tables, name))
  }

  function PageAt(tables: seq<Table>, resource: Option<string>, cursor: Option<string>, limit: nat): Page<Item>
    requires Origin(cursor).Some? && (resource.Some? ==> Named(tables, resource.value) != [])
  {
    Answer(tables, Request(cursor, None, resource, limit)).value
  }

  lemma ResumableHasPage(tables: seq<Table>, resource: Option<string>)
    requires Resumable(tables, resource)
    ensures resource.Some? ==> Named(tables, resource.value) != []
  {
    if resource.Some? {
      NamedExactly(tables, resource.value);
    }
  }

  /** The place where the rest begins can be printed, and choosing from it on leaves the tables from there. */
  lemma ChosenFrom(tables: seq<Table>, resource: Option<string>, start: string, i: nat)
    requires Resumable(tables, resource) && i < |Chosen(tables, resource, start)|
    ensures var chosen := Chosen(tables, resource, start);
            && C.IsAscii(chosen[i].resource) && ':' !in chosen[i].resource
            && Chosen(tables, resource, chosen[i].resource) == chosen[i..]
  {
    match resource
    case None =>
      var j := SelectedIsSubset(tables, start, i);
      SelectedFrom(tables, start, i);
    case Some(name) =>
      NamedExactly(tables, name);
  }

  /** A page holds the beginning of the rest, and its cursor leads to exactly what is then left. */
  lemma PageResumes(tables: seq<Table>, resource: Option<string>, cursor: Option<string>, limit: nat)
    requires Resumable(tables, resource) && Origin(cursor).Some?
    ensures resource.Some? ==> Named(tables, resource.value) != []
    ensures var page, rest := PageAt(tables, resource, cursor, limit), Rest(tables, resource, cursor);
            && page.items == Take(rest, limit) && page.count == |page.items|
            && (page.next.Some? <==> limit < |rest|)
            && (page.next.Some? ==> Origin(page.next).Some? && Rest(tables, resource, page.next) == rest[limit..])
  {
    ResumableHasPage(tables, resource);
    var position := Origin(cursor).value;
    var chosen := Chosen(tables, resource, position.resource);
    var i := PlaceBeginsRest(chosen, position.offset, limit);
    var place := Place(chosen, position.offset, limit);
    if place.Some? {
      ChosenFrom(tables, resource, position.resource, i);
      C.ParsePrint(place.value);
    }
  }

  /** The pages a client gets by following the cursors until there is none. */
  function Walk(tables: seq<Table>, resource: Option<string>, cursor: Option<string>, limit: nat): (pages: seq<Page<Item>>)
    requires Resumable(tables, resource) && Origin(cursor).Some? && 0 < limit
    ensures pages != []
    decreases |Rest(tables, resource, cursor)|
  {
    PageResumes(tables, resource, cursor, limit);
    var page := PageAt(tables, resource, cursor, limit);
    if page.next.None? then [page] else [page] + Walk(tables, resource, page.next, limit)
  }

  lemma {:induction false} WalkFrom(tables: seq<Table>, resource: Option<string>, cursor: Option<string>, limit: nat)
    requires Resumable(tables, resource) && Origin(cursor).Some? && 0 < limit
    ensures Complete(Walk(tables, resource, cursor, limit), Rest(tables, resource, cursor), limit)
    decreases |Rest(tables, resource, cursor)|
  {
    PageResumes(tables, resource, cursor, limit);
    var page, rest := PageAt(tables, resource, cursor, limit), Rest(tables, resource, cursor);
    if page.next.None? {
      OnlyPage(page, limit);
    } else {
      WalkFrom(tables, resource, page.next, limit);
      OneMorePage(page, Walk(tables, resource, page.next, limit), rest, limit);
    }
  }

  /** Following the cursors from the first request until there is none yields every listed row in
      order, each once; all pages but the last are full; and the number of requests is the number
      of rows divided by the limit, rounded up, but at least one. */
  lemma WalkIsComplete(tables: seq<Table>, limit: nat)
    requires SortedNames(tables) && PrintableNames(tables) && 0 < limit
    ensures Complete(Walk(tables, None, None, limit), Flatten(Selected(tables, "0")), limit)
  {
    WalkFrom(tables, None, None, limit);
    FlattenIsPending(Selected(tables, "0"));
  }

  /** Asking for one resource, whatever the order of the names, yields exactly that table's rows in order. */
  lemma WalkOfResource(tables: seq<Table>, t: Table, limit: nat)
    requires DistinctNames(tables) && PrintableNames(tables) && t in tables && 0 < limit
    ensures Complete(Walk(tables, Some(t.resource), None, limit), ItemsOf(t.resource, t.rows), limit)
  {
    NamedAlone(tables, t);
    WalkFrom(tables, Some(t.resource), None, limit);
    assert t.rows[0..] == t.rows;
    assert Pending([t], 0) == ItemsOf(t.resource, t.rows) + Flatten([t][1..]) == ItemsOf(t.resource, t.rows);
  }

  // --- what is listed -----------------------------------------------------------------------------------

  lemma {:induction false} SelectedExactly(tables: seq<Table>, start: string, t: Table)
    ensures t in Selected(tables, start) <==>
            t in tables && AtMost(start, t.resource) &&
            t.resource != "auth" && t.resource != "scope" && t.resource != "settings" && t.resource != "trashcan" && t.resource != "tz"
  {
    if tables != [] {
      SelectedExactly(tables[1..], start, t);
      assert tables == [tables[0]] + tables[1..];
    }
  }

  lemma ItemsExactly(resource: string, rows: seq<string>, item: Item)
    ensures item in ItemsOf(resource, rows) <==>
            exists row :: row in rows && item == Item(resource + "-" + row, resource)
  {
    var items := ItemsOf(resource, rows);
    if item in items {
      var i :| 0 <= i < |items| && items[i] == item;
      assert rows[i] in rows;
    }
    if row :| row in rows && item == Item(resource + "-" + row, resource) {
      var i :| 0 <= i < |rows| && rows[i] == row;
      assert items[i] == item;
    }
  }

  lemma {:induction false} FlattenExactly(tables: seq<Table>, item: Item)
    ensures item in Flatten(tables) <==>
            exists t, row :: t in tables && row in t.rows && item == Item(t.resource + "-" + row, t.resource)
  {
    if tables != [] {
      var first := tables[0];
      FlattenExactly(tables[1..], item);
      assert tables == [first] + tables[1..];
      assert item in ItemsOf(first.resource, first.rows) <==>
          exists row :: row in first.rows && item == Item(first.resource + "-" + row, first.resource) by {
        ItemsExactly(first.resource, first.rows, item);
      }
    }
  }

  /** The walk over all resources lists exactly the rows of every table but five, under an ID from which
      resource and row can be told if the resource's name has no dash. */
  lemma WalkListsExactly(tables: seq<Table>, limit: nat, item: Item)
    requires SortedNames(tables) && PrintableNames(tables) && 0 < limit
    ensures item in AllItems(Walk(tables, None, None, limit)) <==>
            exists t, row :: t in tables && row in t.rows && item == Item(t.resource + "-" + row, t.resource) &&
                             AtMost("0", t.resource) && t.resource !in {"auth", "scope", "settings", "trashcan", "tz"}
    ensures forall row :: item.id == item.resource + "-" + row && '-' !in item.resource ==>
                            C.ParseComposite(item.id) == Some((item.resource, row))
  {
    WalkIsComplete(tables, limit);
    FlattenExactly(Selected(tables, "0"), item);
    forall t ensures t in Selected(tables, "0") <==>
                     t in tables && AtMost("0", t.resource) && t.resource !in {"auth", "scope", "settings", "trashcan", "tz"} {
      SelectedExactly(tables, "0", t);
    }
    forall row | item.id == item.resource + "-" + row && '-' !in item.resource
      ensures C.ParseComposite(item.id) == Some((item.resource, row))
    {
      C.ParseCompositeId(item.resource, row);
    }
  }

  // --- requests of every kind ----------------------------------------------------------------------------

  lemma PendingOfOne(t: Table, offset: nat)
    ensures Pending([t], offset) == Drop(ItemsOf(t.resource, t.rows), offset)
  {
    if offset < |t.rows| {
      assert Drop(ItemsOf(t.resource, t.rows), offset) == ItemsOf(t.resource, t.rows[offset..]);
      assert Pending([t], offset) == ItemsOf(t.resource, t.rows[offset..]) + Flatten([t][1..]);
    }
  }

  /** Of a cursor and an offset the cursor counts. */
  function AskedOffset(r: Request): nat
    requires r.cursor.Some? ==> C.Parse(r.cursor.value).Some?
  {
    if r.cursor.Some? then C.Parse(r.cursor.value).value.offset
    else if r.offset.Some? then r.offset.value
    else 0
  }

  /** How a request is answered: rejected for its cursor, for an offset without a resource, or for a resource
      that does not exist; and otherwise, for a resource, with its rows from the cursor's offset or else
      from the given one on. */
  lemma AnswerExactly(tables: seq<Table>, r: Request)
    requires DistinctNames(tables)
    ensures var broken := r.cursor.Some? && C.Parse(r.cursor.value).None?;
            && (Answer(tables, r) == Err(BadCursor) <==> broken)
            && (Answer(tables, r) == Err(UseCursor) <==> !broken && r.resource.None? && r.offset.Some?)
            && (Answer(tables, r) == Err(NoSuchModel) <==> !broken && r.resource.Some? && !Has(tables, r.resource.value))
    ensures forall t | t in tables && r.resource == Some(t.resource) && (r.cursor.Some? ==> C.Parse(r.cursor.value).Some?) ::
              && Answer(tables, r).Ok?
              && Answer(tables, r).value.items == Take(Drop(ItemsOf(t.resource, t.rows), AskedOffset(r)), r.limit)
  {
    if r.resource.Some? {
      NamedExactly(tables, r.resource.value);
    }
    forall t | t in tables && r.resource == Some(t.resource) && (r.cursor.Some? ==> C.Parse(r.cursor.value).Some?)
      ensures && Answer(tables, r).Ok?
              && Answer(tables, r).value.items == Take(Drop(ItemsOf(t.resource, t.rows), AskedOffset(r)), r.limit)
    {
      NamedAlone(tables, t);
      PendingOfOne(t, AskedOffset(r));
    }
  }

  // --- why the names have to be in order --------------------------------------------------------------

  /** Registered names: each one listed from the first request on, no two alike. */
  ghost predicate Names(names: seq<string>) {
    && (forall i | 0 <= i < |names| :: Listed(names[i], "0") && C.IsAscii(names[i]) && ':' !in names[i])
    && (forall i, j | 0 <= i < j < |names| :: names[i] != names[j])
  }

  function Tables(names: seq<string>, rows: seq<seq<string>>): (tables: seq<Table>)
    requires |rows| == |names|
    ensures |tables| == |names|
  {
    seq(|names|, i requires 0 <= i < |names| => Table(names[i], rows[i]))
  }

  /** Whatever the rows, the first page's cursor leads to exactly what that page left. */
  ghost predicate CursorsResume(names: seq<string>) {
    forall rows: seq<seq<string>>, limit: nat | |rows| == |names| && 0 < limit ::
      var tables := Tables(names, rows);
      var page := PageAt(tables, None, None, limit);
      page.next.Some? ==> Rest(tables, None, page.next) == Drop(Rest(tables, None, None), limit)
  }

  /** Only tables i and j have rows, one each. */
  ghost predicate TwoRows(tables: seq<Table>, i: int, j: int) {
    i < j < |tables| && forall k | 0 <= k < |tables| :: |tables[k].rows| == if k == i || k == j then 1 else 0
  }

  /** With i below zero there is only one row, with both below zero there is none. */
  lemma {:induction false} TwoRowsSelected(tables: seq<Table>, i: int, j: int, start: string)
    requires TwoRows(tables, i, j)
    requires (0 <= i ==> Listed(tables[i].resource, start)) && (0 <= j ==> Listed(tables[j].resource, start))
    ensures |Flatten(Selected(tables, start))| == (if 0 <= i then 1 else 0) + (if 0 <= j then 1 else 0)
    decreases |tables|
  {
    if tables != [] {
      var rest := tables[1..];
      assert forall k | 0 <= k < |rest| :: rest[k] == tables[k + 1];
      TwoRowsSelected(rest, if i <= 0 then -2 else i - 1, if j <= 0 then -1 else j - 1, start);
      var selected := Selected(tables, start);
      if Listed(tables[0].resource, start) {
        assert selected == [tables[0]] + Selected(rest, start) && selected[1..] == Selected(rest, start);
        assert |Flatten(selected)| == |tables[0].rows| + |Flatten(Selected(rest, start))|;
      } else {
        assert selected == [] + Selected(rest, start) == Selected(rest, start);
      }
    }
  }

  lemma {:induction false} SecondRowPlace(tables: seq<Table>, i: int, j: nat)
    requires TwoRows(tables, i, j)
    ensures Place(tables, 0, if 0 <= i then 1 else 0) == Some(C.Position(tables[j].resource, 0))
    decreases |tables|
  {
    var rest := tables[1..];
    assert forall k | 0 <= k < |rest| :: rest[k] == tables[k + 1];
    if 0 < j {
      SecondRowPlace(rest, if i <= 0 then -1 else i - 1, j - 1);
    }
  }

  lemma {:induction false} SelectedListed(tables: seq<Table>, start: string)
    requires forall k | 0 <= k < |tables| :: Listed(tables[k].resource, start)
    ensures Selected(tables, start) == tables
  {
    if tables != [] {
      SelectedListed(tables[1..], start);
    }
  }

  lemma RepeatsFromSecond(tables: seq<Table>, i: nat, j: nat)
    requires TwoRows(tables, i, j)
    requires forall k | 0 <= k < |tables| :: Listed(tables[k].resource, "0")
    requires C.IsAscii(tables[j].resource) && ':' !in tables[j].resource
    requires Less(tables[j].resource, tables[i].resource)
    ensures var page := PageAt(tables, None, None, 1);
            page.next.Some? && |Rest(tables, None, page.next)| == 2 == |Rest(tables, None, None)|
  {
    var place := C.Position(tables[j].resource, 0);
    SelectedListed(tables, "0");
    TwoRowsSelected(tables, i, j, "0");
    FlattenIsPending(tables);
    assert PageAt(tables, None, None, 1).next == Some(C.Print(place)) by {
      SecondRowPlace(tables, i, j);
    }
    C.ParsePrint(place);
    TwoRowsSelected(tables, i, j, place.resource);
    FlattenIsPending(Selected(tables, place.resource));
  }

  /** Two names out of order, with one row each, make the cursor lead back to the first of them. */
  lemma OutOfOrderRepeats(names: seq<string>, i: nat, j: nat)
    requires Names(names) && i < j < |names| && Less(names[j], names[i])
    ensures !CursorsResume(names)
  {
    var rows := seq(|names|, k requires 0 <= k < |names| => if k == i || k == j then ["x"] else []);
    var tables := Tables(names, rows);
    assert forall k | 0 <= k < |tables| :: tables[k].resource == names[k] && tables[k].rows == rows[k];
    RepeatsFromSecond(tables, i, j);
  }

  /** Cursors resume where the page ended, whatever the tables hold, if and only if controllers are
      registered in the order of their names. */
  lemma CursorsResumeExactlyWhen(names: seq<string>)
    requires Names(names)
    ensures CursorsResume(names) <==> forall i, j | 0 <= i < j < |names| :: Less(names[i], names[j])
  {
    if forall i, j | 0 <= i < j < |names| :: Less(names[i], names[j]) {
      forall rows: seq<seq<string>>, limit: nat | |rows| == |names| && 0 < limit
        ensures var tables := Tables(names, rows);
                var page := PageAt(tables, None, None, limit);
                page.next.Some? ==> Rest(tables, None, page.next) == Drop(Rest(tables, None, None), limit)
      {
        var tables := Tables(names, rows);
        assert forall k | 0 <= k < |tables| :: tables[k].resource == names[k];
        PageResumes(tables, None, None, limit);
      }
    } else {
      var i, j :| 0 <= i < j < |names| && !Less(names[i], names[j]);
      LessIsStrict(names[i], names[j]);
      OutOfOrderRepeats(names, i, j);
    }
  }
}
