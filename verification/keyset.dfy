/** Keyset ("cursor") pagination with overfetch-and-trim, the pattern every
    list handler repeats:

      1. scope the table (owner, video, parent, ...)             -- Select
      2. keep the rows strictly after the cursor                   -- Seek
      3. order by (key DESC, tie-break DESC)                       -- Sort
      4. take limit + 1 rows, hasMore = more than limit came back,
         drop the extra row, nextCursor = last kept row            -- Fetch
      5. reject a limit outside 1..100 before any of this runs      -- Query

    A row is seen through its `Entry`: its sort position `Pos(at, id)`
    (`at` is the resource's key column, `id` its tie-break column) and
    the decorated row that the handler returns. */
module Keyset {
  import opened Common

  const MinLimit: int := 1
  const MaxLimit: int := 100

  datatype Pos = Pos(at: Timestamp, id: Id)

  datatype Entry<T> = Entry(pos: Pos, row: T)

  /** `ByAtThenId` is `ORDER BY key DESC, id DESC`; `ByAtOnly` is
      `ORDER BY key DESC` with ties left in table order. */
  datatype Order = ByAtThenId | ByAtOnly

  /** The response of a list handler: `{ items, nextCursor }`. */
  datatype Page<T> = Page(items: seq<Entry<T>>, nextCursor: Option<Pos>)

  /** The seek predicate: `key < c.key OR (key = c.key AND id < c.id)`. */
  predicate After(p: Pos, c: Pos)
  {
    p.at < c.at || (p.at == c.at && p.id < c.id)
  }

  /** A missing cursor keeps every row. */
  predicate PastCursor(p: Pos, cursor: Option<Pos>)
  {
    cursor.None? || After(p, cursor.value)
  }

  /** `a` may be listed before `b` under `order` (a total preorder). */
  predicate InOrder(order: Order, a: Pos, b: Pos)
  {
    match order
    case ByAtThenId => a.at > b.at || (a.at == b.at && a.id >= b.id)
    case ByAtOnly => a.at >= b.at
  }

  predicate Sorted<T>(order: Order, s: seq<Entry<T>>)
  {
    forall i, j :: 0 <= i < j < |s| ==> InOrder(order, s[i].pos, s[j].pos)
  }

  /** No two entries share a sort position (true of every scoped table
      whose tie-break column is unique within the scope). */
  predicate Distinct<T>(s: seq<Entry<T>>)
  {
    forall i, j :: 0 <= i < j < |s| ==> s[i].pos != s[j].pos
  }

  /** Step 1: the rows of `rows` that satisfy `keep`, each seen as an entry. */
  function Select<R, T>(rows: seq<R>, keep: R -> bool, entry: R -> Entry<T>): (r: seq<Entry<T>>)
    ensures |r| <= |rows|
    ensures forall e :: e in r ==> exists i :: 0 <= i < |rows| && keep(rows[i]) && e == entry(rows[i])
    ensures forall i :: 0 <= i < |rows| && keep(rows[i]) ==> entry(rows[i]) in r
  {
    if rows == [] then []
    else
      var rest := Select(rows[1..], keep, entry);
      assert forall i :: 1 <= i < |rows| ==> rows[i] == rows[1..][i - 1];
      (if keep(rows[0]) then [entry(rows[0])] else []) + rest
  }

  /** Scoping a table whose rows have pairwise different positions leaves
      entries with pairwise different positions. */
  lemma {:induction false} SelectDistinct<R, T>(rows: seq<R>, keep: R -> bool, entry: R -> Entry<T>)
    requires forall i, j :: 0 <= i < j < |rows| && keep(rows[i]) && keep(rows[j]) ==>
      entry(rows[i]).pos != entry(rows[j]).pos
    ensures Distinct(Select(rows, keep, entry))
  {
    if rows != [] {
      var rest := Select(rows[1..], keep, entry);
      assert forall i, j :: 0 <= i < j < |rows[1..]| ==> rows[1..][i] == rows[i + 1] && rows[1..][j] == rows[j + 1];
      SelectDistinct(rows[1..], keep, entry);
      if keep(rows[0]) {
        forall e | e in rest ensures e.pos != entry(rows[0]).pos {
          var i :| 0 <= i < |rows[1..]| && keep(rows[1..][i]) && e == entry(rows[1..][i]);
          assert rows[1..][i] == rows[i + 1];
        }
        var r := Select(rows, keep, entry);
        assert r == [entry(rows[0])] + rest;
        forall i, j | 0 <= i < j < |r| ensures r[i].pos != r[j].pos {
          if i == 0 {
            assert r[j] == rest[j - 1];
            assert r[j] in rest;
          } else {
            assert r[i] == rest[i - 1] && r[j] == rest[j - 1];
          }
        }
      }
    }
  }

  /** Step 2: the rows strictly after the cursor, in table order. */
  function Seek<T>(s: seq<Entry<T>>, cursor: Option<Pos>): (r: seq<Entry<T>>)
    ensures |r| <= |s|
  {
    if s == [] then []
    else (if PastCursor(s[0].pos, cursor) then [s[0]] else []) + Seek(s[1..], cursor)
  }

  /** Seek keeps exactly the rows past the cursor. */
  lemma {:induction false} SeekMembers<T>(s: seq<Entry<T>>, cursor: Option<Pos>)
    ensures forall e :: e in Seek(s, cursor) ==> e in s && PastCursor(e.pos, cursor)
    ensures forall i :: 0 <= i < |s| && PastCursor(s[i].pos, cursor) ==> s[i] in Seek(s, cursor)
  {
    if s != [] {
      SeekMembers(s[1..], cursor);
      assert forall i :: 1 <= i < |s| ==> s[i] == s[1..][i - 1];
    }
  }

  function Insert<T>(order: Order, e: Entry<T>, s: seq<Entry<T>>): (r: seq<Entry<T>>)
    ensures |r| == |s| + 1
  {
    if s == [] || InOrder(order, e.pos, s[0].pos) then [e] + s
    else [s[0]] + Insert(order, e, s[1..])
  }

  lemma {:induction false} InsertPermutes<T>(order: Order, e: Entry<T>, s: seq<Entry<T>>)
    ensures multiset(Insert(order, e, s)) == multiset(s) + multiset{e}
  {
    if s != [] && !InOrder(order, e.pos, s[0].pos) {
      InsertPermutes(order, e, s[1..]);
      assert s == [s[0]] + s[1..];
    }
  }

  lemma {:induction false} InsertSorted<T>(order: Order, e: Entry<T>, s: seq<Entry<T>>)
    requires Sorted(order, s)
    ensures Sorted(order, Insert(order, e, s))
  {
    if s != [] && !InOrder(order, e.pos, s[0].pos) {
      var rest := Insert(order, e, s[1..]);
      InsertSorted(order, e, s[1..]);
      InsertPermutes(order, e, s[1..]);
      forall x | x in rest ensures InOrder(order, s[0].pos, x.pos) {
        assert x in multiset(rest);
        if x != e {
          var k :| 0 <= k < |s[1..]| && s[1..][k] == x;
          assert s[k + 1] == x;
        }
      }
    }
  }

  /** Step 3: `ORDER BY` under `order` (an insertion sort; stable, so under
      `ByAtOnly` rows with equal keys stay in table order). */
  function Sort<T>(order: Order, s: seq<Entry<T>>): (r: seq<Entry<T>>)
    ensures |r| == |s|
  {
    if s == [] then [] else Insert(order, s[0], Sort(order, s[1..]))
  }

  lemma {:induction false} SortSorted<T>(order: Order, s: seq<Entry<T>>)
    ensures Sorted(order, Sort(order, s))
  {
    if s != [] {
      SortSorted(order, s[1..]);
      InsertSorted(order, s[0], Sort(order, s[1..]));
    }
  }

  lemma {:induction false} SortPermutes<T>(order: Order, s: seq<Entry<T>>)
    ensures multiset(Sort(order, s)) == multiset(s)
  {
    if s != [] {
      SortPermutes(order, s[1..]);
      InsertPermutes(order, s[0], Sort(order, s[1..]));
      assert s == [s[0]] + s[1..];
    }
  }

  function Take<T>(s: seq<T>, n: nat): seq<T>
  {
    if |s| <= n then s else s[..n]
  }

  /** The overfetch trim: `hasMore = data.length > limit`, drop the extra
      row, and take the cursor from the last row kept. */
  function Trim<T>(data: seq<Entry<T>>, limit: int): (p: Page<T>)
    requires MinLimit <= limit && |data| <= limit + 1
    ensures |p.items| == if |data| > limit then limit else |data|
    ensures p.items == data[..|p.items|]
    ensures p.nextCursor.Some? <==> |data| > limit
    ensures p.nextCursor.Some? ==> p.nextCursor.value == p.items[limit - 1].pos
  {
    var hasMore := |data| > limit;
    var items := if hasMore then data[..|data| - 1] else data;
    Page(items, if hasMore then Some(items[|items| - 1].pos) else None)
  }

  /** A prefix of a sorted sequence of rows past the cursor is again one. */
  lemma PrefixOfOrdered<T>(order: Order, table: seq<Entry<T>>, cursor: Option<Pos>, n: nat)
    requires n <= |Seek(table, cursor)|
    ensures var prefix := Sort(order, Seek(table, cursor))[..n];
      && Sorted(order, prefix)
      && forall e :: e in prefix ==> e in table && PastCursor(e.pos, cursor)
  {
    var ordered := Sort(order, Seek(table, cursor));
    SortPermutes(order, Seek(table, cursor));
    SortSorted(order, Seek(table, cursor));
    SeekMembers(table, cursor);
    forall e | e in ordered[..n] ensures e in table && PastCursor(e.pos, cursor) {
      assert e in ordered;
      assert e in multiset(ordered);
    }
  }

  /** Step 4: the `limit + 1` query, then the trim and the cursor. */
  function Fetch<T>(order: Order, table: seq<Entry<T>>, cursor: Option<Pos>, limit: int): (p: Page<T>)
    requires MinLimit <= limit <= MaxLimit
    ensures |p.items| <= limit && |p.items| <= |Seek(table, cursor)|
    ensures p.items == Sort(order, Seek(table, cursor))[..|p.items|]
    ensures p.nextCursor.Some? <==> |Seek(table, cursor)| > limit
    ensures p.nextCursor.Some? ==> |p.items| == limit && p.nextCursor.value == p.items[limit - 1].pos
    ensures p.nextCursor.None? ==> |p.items| == |Seek(table, cursor)|
    ensures forall e :: e in p.items ==> e in table && PastCursor(e.pos, cursor)
    ensures Sorted(order, p.items)
  {
    var ordered := Sort(order, Seek(table, cursor));
    var data := Take(ordered, limit + 1);
    var p := Trim(data, limit);
    assert p.items == ordered[..|p.items|];
    PrefixOfOrdered(order, table, cursor, |p.items|);
    p
  }

  /** Step 5: the whole list query, with the input schema's limit check. */
  function Query<T>(order: Order, table: seq<Entry<T>>, cursor: Option<Pos>, limit: int): (r: Result<Page<T>>)
    ensures r.Failure? <==> !(MinLimit <= limit <= MaxLimit)
    ensures r.Failure? ==> r.error == ValidationError
    ensures r.Success? ==> r.value == Fetch(order, table, cursor, limit)
  {
    if MinLimit <= limit <= MaxLimit then Success(Fetch(order, table, cursor, limit))
    else Failure(ValidationError)
  }

  // ---------------------------------------------------------------------
  // Facts about Seek and Sort.

  lemma {:induction false} SeekDistinct<T>(s: seq<Entry<T>>, cursor: Option<Pos>)
    requires Distinct(s)
    ensures Distinct(Seek(s, cursor))
  {
    if s != [] {
      SeekDistinct(s[1..], cursor);
      SeekMembers(s[1..], cursor);
      forall x | x in Seek(s[1..], cursor) ensures x.pos != s[0].pos {
        var k :| 0 <= k < |s[1..]| && s[1..][k] == x;
        assert s[k + 1] == x;
      }
    }
  }

  lemma {:induction false} InsertDistinct<T>(order: Order, e: Entry<T>, s: seq<Entry<T>>)
    requires Distinct(s)
    requires forall x :: x in s ==> x.pos != e.pos
    ensures Distinct(Insert(order, e, s))
  {
    if s != [] && !InOrder(order, e.pos, s[0].pos) {
      InsertDistinct(order, e, s[1..]);
      var rest := Insert(order, e, s[1..]);
      InsertPermutes(order, e, s[1..]);
      forall x | x in rest ensures x.pos != s[0].pos {
        assert x in multiset(rest);
        if x != e {
          var k :| 0 <= k < |s[1..]| && s[1..][k] == x;
          assert s[k + 1] == x;
        }
      }
    }
  }

  lemma {:induction false} SortDistinct<T>(order: Order, s: seq<Entry<T>>)
    requires Distinct(s)
    ensures Distinct(Sort(order, s))
  {
    if s != [] {
      SortDistinct(order, s[1..]);
      var rest := Sort(order, s[1..]);
      SortPermutes(order, s[1..]);
      forall x | x in rest ensures x.pos != s[0].pos {
        assert x in multiset(rest);
        var k :| 0 <= k < |s[1..]| && s[1..][k] == x;
        assert s[k + 1] == x;
      }
      InsertDistinct(order, s[0], rest);
    }
  }

  lemma SeekCons<T>(x: Entry<T>, s: seq<Entry<T>>, cursor: Option<Pos>)
    ensures Seek([x] + s, cursor) == (if PastCursor(x.pos, cursor) then [x] else []) + Seek(s, cursor)
  {
    assert ([x] + s)[0] == x && ([x] + s)[1..] == s;
  }

  lemma InsertFront<T>(order: Order, e: Entry<T>, s: seq<Entry<T>>, cursor: Option<Pos>)
    requires Sorted(order, s)
    requires s == [] || InOrder(order, e.pos, s[0].pos)
    requires PastCursor(e.pos, cursor)
    ensures Insert(order, e, Seek(s, cursor)) == [e] + Seek(s, cursor)
  {
    var kept := Seek(s, cursor);
    SeekMembers(s, cursor);
    if kept != [] {
      assert kept[0] in kept;
      var k :| 0 <= k < |s| && s[k] == kept[0];
      assert k == 0 || InOrder(order, s[0].pos, s[k].pos);
    }
  }

  /** Keeping the rows after the cursor commutes with inserting one row. */
  lemma {:induction false} SeekInsert<T>(order: Order, e: Entry<T>, s: seq<Entry<T>>, cursor: Option<Pos>)
    requires Sorted(order, s)
    ensures Seek(Insert(order, e, s), cursor)
         == if PastCursor(e.pos, cursor) then Insert(order, e, Seek(s, cursor)) else Seek(s, cursor)
  {
    if s == [] || InOrder(order, e.pos, s[0].pos) {
      SeekCons(e, s, cursor);
      if PastCursor(e.pos, cursor) {
        InsertFront(order, e, s, cursor);
      }
    } else {
      SeekInsert(order, e, s[1..], cursor);
      InsertBehind(order, e, s, cursor);
    }
  }

  lemma InsertBehind<T>(order: Order, e: Entry<T>, s: seq<Entry<T>>, cursor: Option<Pos>)
    requires s != [] && !InOrder(order, e.pos, s[0].pos)
    requires Seek(Insert(order, e, s[1..]), cursor)
          == if PastCursor(e.pos, cursor) then Insert(order, e, Seek(s[1..], cursor)) else Seek(s[1..], cursor)
    ensures Seek(Insert(order, e, s), cursor)
         == if PastCursor(e.pos, cursor) then Insert(order, e, Seek(s, cursor)) else Seek(s, cursor)
  {
    var rest := Insert(order, e, s[1..]);
    assert Insert(order, e, s) == [s[0]] + rest;
    SeekCons(s[0], rest, cursor);
    assert s == [s[0]] + s[1..];
    SeekCons(s[0], s[1..], cursor);
    var kept := Seek(s, cursor);
    if !PastCursor(e.pos, cursor) {
      assert Seek(rest, cursor) == Seek(s[1..], cursor);
    } else if PastCursor(s[0].pos, cursor) {
      assert kept == [s[0]] + Seek(s[1..], cursor);
      assert kept[0] == s[0] && kept[1..] == Seek(s[1..], cursor);
      assert Insert(order, e, kept) == [s[0]] + Insert(order, e, Seek(s[1..], cursor));
    } else {
      assert kept == Seek(s[1..], cursor);
    }
  }

  /** The database may filter before or after it orders: the result is the same. */
  lemma {:induction false} SeekSort<T>(order: Order, s: seq<Entry<T>>, cursor: Option<Pos>)
    ensures Seek(Sort(order, s), cursor) == Sort(order, Seek(s, cursor))
  {
    if s != [] {
      SeekSort(order, s[1..], cursor);
      SortSorted(order, s[1..]);
      SeekInsert(order, s[0], Sort(order, s[1..]), cursor);
      assert Sort(order, s) == Insert(order, s[0], Sort(order, s[1..]));
      var kept := Seek(s, cursor);
      if PastCursor(s[0].pos, cursor) {
        assert kept == [s[0]] + Seek(s[1..], cursor);
        assert kept[0] == s[0] && kept[1..] == Seek(s[1..], cursor);
        assert Sort(order, kept) == Insert(order, s[0], Sort(order, Seek(s[1..], cursor)));
      } else {
        assert kept == Seek(s[1..], cursor);
      }
    }
  }

  /** Seeking past `n`, itself past `cursor`, needs no first seek past `cursor`. */
  lemma {:induction false} SeekTwice<T>(s: seq<Entry<T>>, cursor: Option<Pos>, n: Pos)
    requires PastCursor(n, cursor)
    ensures Seek(Seek(s, cursor), Some(n)) == Seek(s, Some(n))
  {
    if s != [] {
      SeekTwice(s[1..], cursor, n);
      var kept := Seek(s, cursor);
      if PastCursor(s[0].pos, cursor) {
        assert kept == [s[0]] + Seek(s[1..], cursor);
        assert kept[0] == s[0] && kept[1..] == Seek(s[1..], cursor);
      } else {
        assert kept == Seek(s[1..], cursor);
        assert !PastCursor(s[0].pos, Some(n));
      }
    }
  }

  lemma {:induction false} SeekSplit<T>(s: seq<Entry<T>>, cursor: Option<Pos>, m: nat)
    requires m <= |s|
    requires forall i :: 0 <= i < m ==> !PastCursor(s[i].pos, cursor)
    requires forall i :: m <= i < |s| ==> PastCursor(s[i].pos, cursor)
    ensures Seek(s, cursor) == s[m..]
  {
    if s != [] {
      SeekSplit(s[1..], cursor, if m == 0 then 0 else m - 1);
      if m == 0 {
        assert s == [s[0]] + s[1..];
      } else {
        assert s[1..][m - 1..] == s[m..];
      }
    }
  }

  /** In a strictly ordered sequence the rows after the `k`-th row's
      position are exactly the rows behind it. */
  lemma SeekAtRow<T>(s: seq<Entry<T>>, k: nat)
    requires Sorted(ByAtThenId, s) && Distinct(s)
    requires k < |s|
    ensures Seek(s, Some(s[k].pos)) == s[k + 1..]
  {
    forall i | 0 <= i < |s| ensures PastCursor(s[i].pos, Some(s[k].pos)) <==> k < i {
      if i < k {
        assert InOrder(ByAtThenId, s[i].pos, s[k].pos);
      } else if k < i {
        assert InOrder(ByAtThenId, s[k].pos, s[i].pos) && s[k].pos != s[i].pos;
      }
    }
    SeekSplit(s, Some(s[k].pos), k + 1);
  }

  /** The next cursor leaves fewer rows to page through. */
  lemma {:induction false} SeekNarrows<T>(s: seq<Entry<T>>, cursor: Option<Pos>, e: Entry<T>)
    requires e in s && PastCursor(e.pos, cursor)
    ensures |Seek(s, Some(e.pos))| < |Seek(s, cursor)|
  {
    assert s == [s[0]] + s[1..];
    SeekCons(s[0], s[1..], cursor);
    SeekCons(s[0], s[1..], Some(e.pos));
    if s[0] == e {
      SeekNarrowsOrKeeps(s[1..], cursor, e.pos);
    } else {
      SeekNarrows(s[1..], cursor, e);
    }
  }

  lemma {:induction false} SeekNarrowsOrKeeps<T>(s: seq<Entry<T>>, cursor: Option<Pos>, n: Pos)
    requires PastCursor(n, cursor)
    ensures |Seek(s, Some(n))| <= |Seek(s, cursor)|
  {
    if s != [] {
      SeekNarrowsOrKeeps(s[1..], cursor, n);
      assert s == [s[0]] + s[1..];
      SeekCons(s[0], s[1..], cursor);
      SeekCons(s[0], s[1..], Some(n));
    }
  }

  // ---------------------------------------------------------------------
  // Following nextCursor until it is null.

  /** The pages a client receives by calling the list handler first with
      `cursor`, then with each returned `nextCursor`, until it is null,
      with no intervening writes. */
  function Pages<T>(order: Order, table: seq<Entry<T>>, cursor: Option<Pos>, limit: int): (ps: seq<Page<T>>)
    requires MinLimit <= limit <= MaxLimit
    ensures |ps| >= 1
    decreases |Seek(table, cursor)|
  {
    var p := Fetch(order, table, cursor, limit);
    if p.nextCursor.None? then [p]
    else
      var last := p.items[limit - 1];
      SortPermutes(order, Seek(table, cursor));
      assert last in multiset(Sort(order, Seek(table, cursor)));
      SeekNarrows(table, cursor, last);
      [p] + Pages(order, table, p.nextCursor, limit)
  }

  function Flatten<T>(ps: seq<Page<T>>): seq<Entry<T>>
  {
    if ps == [] then [] else ps[0].items + Flatten(ps[1..])
  }

  /** The last page: no cursor is handed out, and the page holds every
      remaining row. */
  lemma LastPage<T>(table: seq<Entry<T>>, cursor: Option<Pos>, limit: int)
    requires MinLimit <= limit <= MaxLimit
    requires Fetch(ByAtThenId, table, cursor, limit).nextCursor.None?
    ensures Pages(ByAtThenId, table, cursor, limit) == [Fetch(ByAtThenId, table, cursor, limit)]
    ensures Fetch(ByAtThenId, table, cursor, limit).items == Sort(ByAtThenId, Seek(table, cursor))
    ensures |Seek(table, cursor)| <= limit
  {
  }

  /** A full page is followed by the pages from its `nextCursor`. */
  lemma PagesUnfold<T>(table: seq<Entry<T>>, cursor: Option<Pos>, limit: int)
    requires MinLimit <= limit <= MaxLimit
    requires Fetch(ByAtThenId, table, cursor, limit).nextCursor.Some?
    ensures var p := Fetch(ByAtThenId, table, cursor, limit);
      Pages(ByAtThenId, table, cursor, limit) == [p] + Pages(ByAtThenId, table, p.nextCursor, limit)
  {
  }

  /** After the first `limit` ordered rows, the next call, from the
      position of the last of them, sees exactly the ordered rows behind. */
  lemma NextPage<T>(table: seq<Entry<T>>, cursor: Option<Pos>, limit: int, items: seq<Entry<T>>, next: Option<Pos>)
    requires 1 <= limit
    requires Distinct(table)
    requires var rest := Sort(ByAtThenId, Seek(table, cursor));
      && limit < |rest|
      && items == rest[..limit]
      && next == Some(rest[limit - 1].pos)
    ensures Sort(ByAtThenId, Seek(table, cursor)) == items + Sort(ByAtThenId, Seek(table, next))
    ensures 0 < |Seek(table, next)| == |Seek(table, cursor)| - limit
  {
    var rest := Sort(ByAtThenId, Seek(table, cursor));
    var nextRows := Sort(ByAtThenId, Seek(table, next));
    NextPageIsRest(table, cursor, limit - 1);
    SplitAt(rest, items, nextRows, limit);
  }

  lemma SplitAt<X>(s: seq<X>, front: seq<X>, back: seq<X>, n: int)
    requires 0 <= n < |s|
    requires front == s[..n] && back == s[n..]
    ensures s == front + back && 0 < |back| == |s| - n
  {
    assert s == s[..n] + s[n..];
  }

  /** A page that hands out a cursor is the first `limit` ordered rows, and
      the cursor is the position of the last of them. */
  lemma FullPage<T>(table: seq<Entry<T>>, cursor: Option<Pos>, limit: int)
    requires MinLimit <= limit <= MaxLimit
    requires Fetch(ByAtThenId, table, cursor, limit).nextCursor.Some?
    ensures var p, rest := Fetch(ByAtThenId, table, cursor, limit), Sort(ByAtThenId, Seek(table, cursor));
      && limit < |rest|
      && p.items == rest[..limit]
      && p.nextCursor == Some(rest[limit - 1].pos)
  {
  }

  /** No gap, no duplicate: under `(key DESC, id DESC)` the pages, laid end
      to end, are exactly the ordered rows after the starting cursor. */
  lemma {:induction false} PagesCoverRest<T>(table: seq<Entry<T>>, cursor: Option<Pos>, limit: int)
    requires MinLimit <= limit <= MaxLimit
    requires Distinct(table)
    ensures Flatten(Pages(ByAtThenId, table, cursor, limit)) == Sort(ByAtThenId, Seek(table, cursor))
    decreases |Seek(table, cursor)|
  {
    var ps := Pages(ByAtThenId, table, cursor, limit);
    var p := Fetch(ByAtThenId, table, cursor, limit);
    if p.nextCursor.None? {
      LastPage(table, cursor, limit);
      assert Flatten(ps) == p.items + Flatten([]);
    } else {
      PagesUnfold(table, cursor, limit);
      FullPage(table, cursor, limit);
      NextPage(table, cursor, limit, p.items, p.nextCursor);
      var next := Pages(ByAtThenId, table, p.nextCursor, limit);
      PagesCoverRest(table, p.nextCursor, limit);
      assert ps[0] == p && ps[1..] == next;
    }
  }

  /** The number of pages the walk over `n` remaining rows takes. */
  function PagesNeeded(n: nat, limit: int): (k: nat)
    requires 1 <= limit
    ensures k >= 1
    decreases n
  {
    if n <= limit then 1 else 1 + PagesNeeded(n - limit, limit)
  }

  /** `PagesNeeded` is `ceil(n / limit)` for `n > 0`: all pages but the
      last are full, and the last is not empty. */
  lemma {:induction false} PagesNeededFits(n: nat, limit: int)
    requires 1 <= limit && n > 0
    ensures (PagesNeeded(n, limit) - 1) * limit < n <= PagesNeeded(n, limit) * limit
    decreases n
  {
    if n > limit {
      var k := PagesNeeded(n - limit, limit);
      PagesNeededFits(n - limit, limit);
      assert PagesNeeded(n, limit) == k + 1;
      assert (k + 1) * limit == k * limit + limit;
    }
  }

  /** Termination: the walk from `cursor` takes `PagesNeeded` pages for the
      rows past the cursor; none take one empty page. */
  lemma {:induction false} PageCount<T>(table: seq<Entry<T>>, cursor: Option<Pos>, limit: int)
    requires MinLimit <= limit <= MaxLimit
    requires Distinct(table)
    ensures |Pages(ByAtThenId, table, cursor, limit)| == PagesNeeded(|Seek(table, cursor)|, limit)
    decreases |Seek(table, cursor)|
  {
    var p := Fetch(ByAtThenId, table, cursor, limit);
    if p.nextCursor.None? {
      LastPage(table, cursor, limit);
    } else {
      NextPageShrinks(table, cursor, limit);
      PageCount(table, p.nextCursor, limit);
      PageCountStep(table, cursor, limit);
    }
  }

  lemma NextPageShrinks<T>(table: seq<Entry<T>>, cursor: Option<Pos>, limit: int)
    requires MinLimit <= limit <= MaxLimit
    requires Distinct(table)
    requires Fetch(ByAtThenId, table, cursor, limit).nextCursor.Some?
    ensures |Seek(table, Fetch(ByAtThenId, table, cursor, limit).nextCursor)| < |Seek(table, cursor)|
  {
    var p := Fetch(ByAtThenId, table, cursor, limit);
    FullPage(table, cursor, limit);
    NextPage(table, cursor, limit, p.items, p.nextCursor);
  }

  /** A full page adds one page to the walk and takes `limit` rows. */
  lemma PageCountStep<T>(table: seq<Entry<T>>, cursor: Option<Pos>, limit: int)
    requires MinLimit <= limit <= MaxLimit
    requires Distinct(table)
    requires Fetch(ByAtThenId, table, cursor, limit).nextCursor.Some?
    requires var next := Fetch(ByAtThenId, table, cursor, limit).nextCursor;
      |Pages(ByAtThenId, table, next, limit)| == PagesNeeded(|Seek(table, next)|, limit)
    ensures |Pages(ByAtThenId, table, cursor, limit)| == PagesNeeded(|Seek(table, cursor)|, limit)
  {
    PagesUnfold(table, cursor, limit);
    var p := Fetch(ByAtThenId, table, cursor, limit);
    FullPage(table, cursor, limit);
    NextPage(table, cursor, limit, p.items, p.nextCursor);
  }

  /** After the row at index `k` of the ordered remainder, the next query
      returns exactly the rows behind it. */
  lemma NextPageIsRest<T>(table: seq<Entry<T>>, cursor: Option<Pos>, k: nat)
    requires Distinct(table)
    requires k < |Seek(table, cursor)|
    ensures var rest := Sort(ByAtThenId, Seek(table, cursor));
      Sort(ByAtThenId, Seek(table, Some(rest[k].pos))) == rest[k + 1..]
  {
    var rest := Sort(ByAtThenId, Seek(table, cursor));
    var n := rest[k].pos;
    SortPermutes(ByAtThenId, Seek(table, cursor));
    assert rest[k] in multiset(rest);
    SeekMembers(table, cursor);
    var sorted := Sort(ByAtThenId, table);
    SeekSort(ByAtThenId, table, cursor);
    SeekSort(ByAtThenId, table, Some(n));
    SeekTwice(sorted, cursor, n);
    SeekDistinct(table, cursor);
    SortDistinct(ByAtThenId, Seek(table, cursor));
    SortSorted(ByAtThenId, Seek(table, cursor));
    SeekAtRow(rest, k);
  }

  /** Starting without a cursor, the client sees every row exactly once,
      strictly ordered by `(key DESC, id DESC)`. */
  lemma ListsEveryRowOnce<T>(table: seq<Entry<T>>, limit: int)
    requires MinLimit <= limit <= MaxLimit
    requires Distinct(table)
    ensures var all := Flatten(Pages(ByAtThenId, table, None, limit));
      && multiset(all) == multiset(table)
      && Sorted(ByAtThenId, all)
      && Distinct(all)
  {
    PagesCoverRest(table, None, limit);
    SeekDistinct(table, None);
    SortDistinct(ByAtThenId, Seek(table, None));
    SortPermutes(ByAtThenId, Seek(table, None));
    SortSorted(ByAtThenId, Seek(table, None));
    assert Seek(table, None) == table by {
      SeekSplit(table, None, 0);
    }
  }
}
