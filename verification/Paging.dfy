/** Pages of a list, and what it takes for them to make it up. */
module Paging {
  import opened Wrappers
  import opened Arithmetic

  /** `next` is the cursor that the client is to send for the following page. */
  datatype Page<T> = Page(items: seq<T>, count: nat, next: Option<string>)

  function Take<T>(items: seq<T>, n: nat): seq<T> {
    if n < |items| then items[..n] else items
  }

  function Drop<T>(items: seq<T>, n: nat): seq<T> {
    if n < |items| then items[n..] else []
  }

  /** SQLAlchemy's `slice`: the rows from one offset up to another, as far as there are any. */
  function Slice<T>(rows: seq<T>, from: nat, until: nat): (slice: seq<T>)
    requires from <= until
    ensures |slice| == if |rows| <= from then 0 else if until < |rows| then until - from else |rows| - from
  {
    if |rows| <= from then [] else rows[from..if until < |rows| then until else |rows|]
  }

  function AllItems<T>(pages: seq<Page<T>>): seq<T> {
    if pages == [] then [] else pages[0].items + AllItems(pages[1..])
  }

  function CeilingDivide(n: nat, d: nat): nat
    requires 0 < d
  {
    (n + d - 1) / d
  }

  lemma CeilingStep(n: nat, d: nat)
    requires 0 < d
    ensures 0 < n <= d ==> CeilingDivide(n, d) == 1
    ensures d < n ==> CeilingDivide(n, d) == 1 + CeilingDivide(n - d, d)
    ensures CeilingDivide(0, d) == 0
  {
    QuotientIs(d - 1, d, 0);
    if 0 < n <= d {
      QuotientIs(n + d - 1, d, 1);
    }
    if d < n {
      var q := (n - 1) / d;
      Division(n - 1, d);
      assert (q + 1) * d == q * d + d;
      QuotientIs(n + d - 1, d, q + 1);
    }
  }

  /** The pages make up `rest`, are full but for the last one, and are as many as that takes. */
  predicate Complete<T(==)>(pages: seq<Page<T>>, rest: seq<T>, limit: nat)
    requires 0 < limit
  {
    && pages != [] && AllItems(pages) == rest
    && |pages| == (if rest == [] then 1 else CeilingDivide(|rest|, limit))
    && (forall i | 0 <= i < |pages| - 1 :: pages[i].next.Some? && |pages[i].items| == limit)
    && pages[|pages| - 1].next.None?
  }

  lemma OnlyPage<T>(page: Page<T>, limit: nat)
    requires 0 < limit && |page.items| <= limit && page.next.None?
    ensures Complete([page], page.items, limit)
  {
    CeilingStep(|page.items|, limit);
    assert page.items + [] == page.items;
    assert AllItems([page]) == page.items + AllItems([page][1..]);
  }

  lemma OneMorePage<T>(page: Page<T>, pages: seq<Page<T>>, rest: seq<T>, limit: nat)
    requires 0 < limit < |rest| && Complete(pages, rest[limit..], limit)
    requires page.items == rest[..limit] && page.next.Some?
    ensures Complete([page] + pages, rest, limit)
  {
    var all := [page] + pages;
    assert all[1..] == pages && forall i | 0 < i < |all| :: all[i] == pages[i - 1];
    assert rest[..limit] + rest[limit..] == rest;
    CeilingStep(|rest|, limit);
  }
}
