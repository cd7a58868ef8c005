/** Listing a tenant's users: keyset pages and offset pages over (createdAt, id), both descending
    (drizzle-user.repository.ts, list-users-cursor.service.ts, list-users.service.ts). */
module UserPaging {
  import opened Arith
  import opened JsText
  import opened Users

  /** The sort key of a row, and the cursor into the list. */
  datatype Cursor = Cursor(createdAt: int, id: Id)

  function KeyOf(u: User): Cursor {
    Cursor(u.createdAt, u.id)
  }

  /** Row-value comparison (a.createdAt, a.id) < (b.createdAt, b.id). */
  predicate Less(a: Cursor, b: Cursor) {
    a.createdAt < b.createdAt || (a.createdAt == b.createdAt && a.id < b.id)
  }

  /** No two rows share a sort key; rows with distinct ids never do. */
  ghost predicate DistinctKeys(rows: set<User>) {
    forall u, v :: u in rows && v in rows && KeyOf(u) == KeyOf(v) ==> u == v
  }

  ghost predicate Descending(list: seq<User>) {
    forall i, j :: 0 <= i < j < |list| ==> Less(KeyOf(list[j]), KeyOf(list[i]))
  }

  ghost predicate IsLargest(rows: set<User>, top: User) {
    top in rows && forall u :: u in rows && u != top ==> Less(KeyOf(u), KeyOf(top))
  }

  lemma {:induction false} HasLargest(rows: set<User>)
    requires rows != {} && DistinctKeys(rows)
    ensures exists top :: IsLargest(rows, top)
    decreases |rows|
  {
    var u :| u in rows;
    var rest := rows - {u};
    if rest == {} {
      assert rows == {u};
      assert IsLargest(rows, u);
    } else {
      HasLargest(rest);
      var best :| IsLargest(rest, best);
      assert KeyOf(u) != KeyOf(best);
      assert IsLargest(rows, if Less(KeyOf(best), KeyOf(u)) then u else best);
    }
  }

  /** ORDER BY created_at DESC, id DESC. */
  ghost function Sorted(rows: set<User>): seq<User>
    requires DistinctKeys(rows)
    decreases |rows|
  {
    if rows == {} then []
    else
      HasLargest(rows);
      var largest :| IsLargest(rows, largest);
      [largest] + Sorted(rows - {largest})
  }

  lemma {:induction false} SortedIsTheRows(rows: set<User>)
    requires DistinctKeys(rows)
    ensures |Sorted(rows)| == |rows| && Descending(Sorted(rows))
    ensures forall u :: u in Sorted(rows) <==> u in rows
    decreases |rows|
  {
    if rows != {} {
      var list := Sorted(rows);
      var top := list[0];
      SortedIsTheRows(rows - {top});
      forall i, j | 0 <= i < j < |list|
        ensures Less(KeyOf(list[j]), KeyOf(list[i]))
      {
        assert list[j] in Sorted(rows - {top});
      }
    }
  }

  /** A descending list is determined by its members. */
  lemma {:induction false} DescendingUnique(a: seq<User>, b: seq<User>)
    requires Descending(a) && Descending(b)
    requires forall u :: u in a <==> u in b
    ensures a == b
  {
    assert |b| > 0 ==> b[0] in b && b[0] in a;
    if a != [] {
      assert a[0] in b;
      assert b != [] && b[0] in a;
      assert a[0] == b[0] by {
        var i :| 0 <= i < |b| && b[i] == a[0];
        var j :| 0 <= j < |a| && a[j] == b[0];
      }
      forall u
        ensures u in a[1..] <==> u in b[1..]
      {
        if u in a[1..] { assert u in a && u != a[0]; }
        if u in b[1..] { assert u in b && u != b[0]; }
      }
      DescendingUnique(a[1..], b[1..]);
    }
  }

  // ---- the two page queries ----

  ghost function After(rows: set<User>, after: Option<Cursor>): set<User> {
    set u | u in rows && (after.None? || Less(KeyOf(u), after.value))
  }

  datatype Page = Page(users: seq<User>, hasMore: bool)

  function Take(list: seq<User>, n: nat): seq<User> {
    if n <= |list| then list[..n] else list
  }

  function Drop(list: seq<User>, n: nat): seq<User> {
    if n <= |list| then list[n..] else []
  }

  /** listAfter: fetch one row more than the limit to learn whether there are more. */
  ghost function ListAfter(rows: set<User>, after: Option<Cursor>, limit: nat): Page
    requires DistinctKeys(rows)
  {
    var fetched := Take(Sorted(After(rows, after)), limit + 1);
    Page(Take(fetched, limit), |fetched| > limit)
  }

  datatype OffsetPage = OffsetPage(users: seq<User>, total: nat)

  ghost function ListPage(rows: set<User>, offset: nat, limit: nat): OffsetPage
    requires DistinctKeys(rows)
  {
    OffsetPage(Take(Drop(Sorted(rows), offset), limit), |rows|)
  }

  /** ListUsersCursorService: the next cursor is the key of the last row of a page that has more
      behind it. */
  function NextCursor(page: Page): Option<Cursor> {
    if page.hasMore && page.users != [] then Some(KeyOf(page.users[|page.users| - 1])) else None
  }

  /** ListUsersService. */
  datatype ListMeta = ListMeta(page: nat, perPage: nat, total: nat, totalPages: nat)

  ghost function ListUsers(rows: set<User>, page: nat, perPage: nat): (seq<User>, ListMeta)
    requires DistinctKeys(rows) && page >= 1 && perPage >= 1
  {
    var result := ListPage(rows, (page - 1) * perPage, perPage);
    (result.users, ListMeta(page, perPage, result.total,
                            if result.total == 0 then 0 else (result.total + perPage - 1) / perPage))
  }

  // ---- what one page holds, told from the rows alone ----

  /** v comes before u in the list: it is newer, or as new with the larger id. */
  predicate Before(v: User, u: User) {
    v.createdAt > u.createdAt || (v.createdAt == u.createdAt && v.id > u.id)
  }

  ghost function Predecessors(rows: set<User>, u: User): set<User> {
    set v | v in rows && Before(v, u)
  }

  /** The users are the rows with so many and then one more row each before them. */
  ghost predicate StandAt(rows: set<User>, users: seq<User>, offset: nat) {
    forall i :: 0 <= i < |users| ==> users[i] in rows && |Predecessors(rows, users[i])| == offset + i
  }

  lemma {:induction false} MembersCount(list: seq<User>)
    requires Descending(list)
    ensures |set u | u in list| == |list|
  {
    var members := set u | u in list;
    if list == [] {
      assert members == {};
    } else {
      var rest := list[1..];
      MembersCount(rest);
      forall i | 0 <= i < |rest|
        ensures list[0] != rest[i]
      {
        assert Less(KeyOf(list[i + 1]), KeyOf(list[0]));
      }
      assert members == {list[0]} + set u | u in rest;
    }
  }

  /** The k-th row of the sorted list has k rows before it. */
  lemma SortedAt(rows: set<User>, k: nat)
    requires DistinctKeys(rows) && k < |Sorted(rows)|
    ensures Sorted(rows)[k] in rows && |Predecessors(rows, Sorted(rows)[k])| == k
  {
    SortedIsTheRows(rows);
    var list := Sorted(rows);
    var front := list[..k];
    MembersCount(front);
    forall v
      ensures v in Predecessors(rows, list[k]) <==> v in front
    {
      if v in rows {
        var i :| 0 <= i < |list| && list[i] == v;
        assert i < k ==> v == front[i];
        assert i < k ==> Less(KeyOf(list[k]), KeyOf(list[i]));
        assert i > k ==> Less(KeyOf(list[i]), KeyOf(list[k]));
      }
    }
    assert Predecessors(rows, list[k]) == set v | v in front;
  }

  lemma SliceStands(rows: set<User>, offset: nat, limit: nat)
    requires DistinctKeys(rows)
    ensures var users := ListPage(rows, offset, limit).users;
            && StandAt(rows, users, offset)
            && |users| == if |rows| <= offset then 0 else if |rows| <= offset + limit then |rows| - offset else limit
  {
    SortedIsTheRows(rows);
    var users := ListPage(rows, offset, limit).users;
    forall i | 0 <= i < |users|
      ensures users[i] in rows && |Predecessors(rows, users[i])| == offset + i
    {
      SortedAt(rows, offset + i);
    }
  }

  /** Whatever its number, an offset page holds the rows that stand at its places in the list, as many
      as there are up to a whole page; its metadata repeat the request and count all rows and the pages
      they fill. */
  lemma OffsetPageExact(rows: set<User>, page: nat, perPage: nat)
    requires DistinctKeys(rows) && page >= 1 && perPage >= 1
    ensures var (users, meta) := ListUsers(rows, page, perPage);
            var offset: nat := (page - 1) * perPage;
            && StandAt(rows, users, offset)
            && |users| == (if |rows| <= offset then 0 else if |rows| <= offset + perPage then |rows| - offset
                           else perPage)
            && meta.page == page && meta.perPage == perPage && meta.total == |rows|
    ensures var meta := ListUsers(rows, page, perPage).1;
            meta.totalPages * perPage >= |rows| && (meta.totalPages > 0 ==> (meta.totalPages - 1) * perPage < |rows|)
  {
    SliceStands(rows, (page - 1) * perPage, perPage);
    if rows != {} {
      CeilOf(|rows|, perPage);
    }
  }

  lemma CeilOf(n: nat, d: nat)
    requires n >= 1 && d >= 1
    ensures var q := (n + d - 1) / d; q >= 1 && q * d >= n && (q - 1) * d < n
  {
    AddDivisor(n - 1, d);
    Euclid(n - 1, d);
    assert ((n - 1) / d + 1) * d == (n - 1) / d * d + d;
  }

  /** The rows that come after a cursor. */
  ghost function Candidates(rows: set<User>, after: Option<Cursor>): (rest: set<User>)
    requires DistinctKeys(rows)
    ensures DistinctKeys(rest)
  {
    set u | u in rows && (after.Some? ==>
      u.createdAt < after.value.createdAt || (u.createdAt == after.value.createdAt && u.id < after.value.id))
  }

  /** A cursor page holds the first rows after the cursor, up to the limit; it has more if and only if
      there are more, and then the next cursor names its last row. */
  lemma CursorPageExact(rows: set<User>, after: Option<Cursor>, limit: nat)
    requires DistinctKeys(rows) && limit >= 1
    ensures var page := ListAfter(rows, after, limit);
            var rest := Candidates(rows, after);
            && StandAt(rest, page.users, 0)
            && |page.users| == (if |rest| <= limit then |rest| else limit)
            && (page.hasMore <==> |rest| > limit)
            && (!page.hasMore ==> NextCursor(page) == None)
            && (page.hasMore ==>
                  var last := page.users[limit - 1]; NextCursor(page) == Some(Cursor(last.createdAt, last.id)))
  {
    var rest := Candidates(rows, after);
    assert After(rows, after) == rest;
    SortedIsTheRows(rest);
    var page := ListAfter(rows, after, limit);
    PageIsPrefix(rows, after, limit);
    forall i | 0 <= i < |page.users|
      ensures page.users[i] in rest && |Predecessors(rest, page.users[i])| == 0 + i
    {
      SortedAt(rest, i);
    }
  }

  // ---- the cursor walk ----

  /** The pages read so far, one from each table in turn, and whether the last had no successor. */
  datatype Walked = Walked(pages: seq<seq<User>>, finished: bool)

  ghost predicate TablesOk(tables: seq<set<User>>) {
    forall i :: 0 <= i < |tables| ==> DistinctKeys(tables[i])
  }

  ghost function Walk(tables: seq<set<User>>, after: Option<Cursor>, limit: nat): Walked
    requires TablesOk(tables)
  {
    if tables == [] then Walked([], false)
    else
      var page := ListAfter(tables[0], after, limit);
      var next := NextCursor(page);
      if next.None? then Walked([page.users], true)
      else
        var rest := Walk(tables[1..], next, limit);
        Walked([page.users] + rest.pages, rest.finished)
  }

  function Flat(pages: seq<seq<User>>): seq<User> {
    if pages == [] then [] else pages[0] + Flat(pages[1..])
  }

  lemma PrefixFacts(all: seq<User>, limit: nat)
    requires Descending(all) && limit >= 1
    ensures Descending(Take(all, limit))
    ensures forall u :: u in Take(all, limit) ==> u in all
    ensures forall u :: u in all && u !in Take(all, limit) ==> |all| > limit && Less(KeyOf(u), KeyOf(all[limit - 1]))
  {
    assert forall j :: 0 <= j < |Take(all, limit)| ==> Take(all, limit)[j] == all[j];
    forall u | u in all && u !in Take(all, limit)
      ensures |all| > limit && Less(KeyOf(u), KeyOf(all[limit - 1]))
    {
      var i :| 0 <= i < |all| && all[i] == u;
    }
  }

  lemma PageIsPrefix(rows: set<User>, after: Option<Cursor>, limit: nat)
    requires DistinctKeys(rows)
    ensures var all := Sorted(After(rows, after));
            ListAfter(rows, after, limit) == Page(Take(all, limit), |all| > limit)
  {
  }

  lemma PageFacts(rows: set<User>, after: Option<Cursor>, limit: nat)
    requires DistinctKeys(rows) && limit >= 1
    ensures var page := ListAfter(rows, after, limit);
            && Descending(page.users)
            && (forall u :: u in page.users ==> u in rows && (after.Some? ==> Less(KeyOf(u), after.value)))
            && (forall u :: u in After(rows, after) && u !in page.users ==>
                  page.hasMore && page.users != [] && Less(KeyOf(u), KeyOf(page.users[|page.users| - 1])))
  {
    SortedIsTheRows(After(rows, after));
    PageIsPrefix(rows, after, limit);
    PrefixFacts(Sorted(After(rows, after)), limit);
  }

  /** Whatever the table becomes between pages, a walk's keys strictly descend, below the cursor
      it started from. */
  lemma {:induction false} WalkDescends(tables: seq<set<User>>, after: Option<Cursor>, limit: nat)
    requires TablesOk(tables) && limit >= 1
    ensures var list := Flat(Walk(tables, after, limit).pages);
            && Descending(list)
            && (after.Some? ==> forall u :: u in list ==> Less(KeyOf(u), after.value))
  {
    if tables != [] {
      var page := ListAfter(tables[0], after, limit);
      PageFacts(tables[0], after, limit);
      var next := NextCursor(page);
      if next.None? {
        assert Flat([page.users]) == page.users + [] == page.users;
      } else {
        WalkDescends(tables[1..], next, limit);
        OnePageMore(page.users, Walk(tables[1..], next, limit).pages, after);
      }
    }
  }

  lemma OnePageMore(first: seq<User>, rest: seq<seq<User>>, after: Option<Cursor>)
    requires first != [] && Descending(first) && Descending(Flat(rest))
    requires forall u :: u in Flat(rest) ==> Less(KeyOf(u), KeyOf(first[|first| - 1]))
    requires after.Some? ==> forall u :: u in first ==> Less(KeyOf(u), after.value)
    ensures var list := Flat([first] + rest);
            Descending(list) && (after.Some? ==> forall u :: u in list ==> Less(KeyOf(u), after.value))
  {
    ConcatDescends(first, Flat(rest));
    FlatCons(first, rest);
    BelowAll(first, Flat(rest), after);
  }

  lemma FlatCons(first: seq<User>, rest: seq<seq<User>>)
    ensures Flat([first] + rest) == first + Flat(rest)
  {
    assert ([first] + rest)[1..] == rest;
  }

  lemma BelowAll(a: seq<User>, b: seq<User>, after: Option<Cursor>)
    requires a != [] && forall u :: u in b ==> Less(KeyOf(u), KeyOf(a[|a| - 1]))
    requires after.Some? ==> forall u :: u in a ==> Less(KeyOf(u), after.value)
    ensures after.Some? ==> forall u :: u in a + b ==> Less(KeyOf(u), after.value)
  {
    assert a[|a| - 1] in a;
  }

  lemma ConcatDescends(a: seq<User>, b: seq<User>)
    requires Descending(a) && Descending(b) && a != []
    requires forall u :: u in b ==> Less(KeyOf(u), KeyOf(a[|a| - 1]))
    ensures Descending(a + b)
  {
    forall i, j | 0 <= i < j < |a + b|
      ensures Less(KeyOf((a + b)[j]), KeyOf((a + b)[i]))
    {
      if i < |a| && j >= |a| {
        assert (a + b)[j] in b;
        assert i == |a| - 1 || Less(KeyOf(a[|a| - 1]), KeyOf(a[i]));
      }
    }
  }

  /** A row's creation time does not change while its id lives. */
  ghost predicate StableKeys(tables: seq<set<User>>) {
    forall i, j, u, v :: 0 <= i < |tables| && 0 <= j < |tables| && u in tables[i] && v in tables[j] && u.id == v.id ==>
      u.createdAt == v.createdAt
  }

  lemma {:induction false} WalkMembers(tables: seq<set<User>>, after: Option<Cursor>, limit: nat, u: User)
    requires TablesOk(tables) && limit >= 1 && u in Flat(Walk(tables, after, limit).pages)
    ensures exists i :: 0 <= i < |tables| && u in tables[i]
  {
    var page := ListAfter(tables[0], after, limit);
    PageFacts(tables[0], after, limit);
    if u in page.users {
      assert u in tables[0];
    } else {
      var next := NextCursor(page);
      var w := Walk(tables, after, limit);
      assert w.pages[0] == page.users;
      if next.Some? {
        assert w.pages[1..] == Walk(tables[1..], next, limit).pages;
        WalkMembers(tables[1..], next, limit, u);
        var i :| 0 <= i < |tables[1..]| && u in tables[1..][i];
        assert u in tables[i + 1];
      }
    }
  }

  /** A walk never returns an id twice. */
  lemma WalkNeverRepeats(tables: seq<set<User>>, limit: nat, i: nat, j: nat)
    requires TablesOk(tables) && StableKeys(tables) && limit >= 1
    requires var list := Flat(Walk(tables, None, limit).pages); i < j < |list|
    ensures var list := Flat(Walk(tables, None, limit).pages); list[i].id != list[j].id
  {
    var list := Flat(Walk(tables, None, limit).pages);
    WalkDescends(tables, None, limit);
    WalkMembers(tables, None, limit, list[i]);
    WalkMembers(tables, None, limit, list[j]);
  }

  ghost predicate PresentThroughout(tables: seq<set<User>>, key: Cursor) {
    forall i :: 0 <= i < |tables| ==> exists u :: u in tables[i] && KeyOf(u) == key
  }

  lemma {:induction false} WalkFinds(tables: seq<set<User>>, after: Option<Cursor>, limit: nat, key: Cursor)
    requires TablesOk(tables) && limit >= 1
    requires PresentThroughout(tables, key) && (after.Some? ==> Less(key, after.value))
    requires Walk(tables, after, limit).finished
    ensures exists u :: u in Flat(Walk(tables, after, limit).pages) && KeyOf(u) == key
  {
    var page := ListAfter(tables[0], after, limit);
    PageFacts(tables[0], after, limit);
    var u :| u in tables[0] && KeyOf(u) == key;
    assert u in After(tables[0], after);
    var w := Walk(tables, after, limit);
    assert w.pages[0] == page.users;
    var next := NextCursor(page);
    if u !in page.users {
      assert w.pages[1..] == Walk(tables[1..], next, limit).pages;
      WalkFinds(tables[1..], next, limit, key);
    }
  }

  /** A finished walk returns every row that was in the table throughout, exactly once. */
  lemma FinishedWalkIsComplete(tables: seq<set<User>>, limit: nat, key: Cursor)
    requires TablesOk(tables) && limit >= 1
    requires PresentThroughout(tables, key) && Walk(tables, None, limit).finished
    ensures var list := Flat(Walk(tables, None, limit).pages);
            exists i :: 0 <= i < |list| && KeyOf(list[i]) == key
                        && forall j :: 0 <= j < |list| && KeyOf(list[j]) == key ==> j == i
  {
    WalkFinds(tables, None, limit, key);
    WalkDescends(tables, None, limit);
    var list := Flat(Walk(tables, None, limit).pages);
    OnePlace(list, key);
  }

  lemma OnePlace(list: seq<User>, key: Cursor)
    requires Descending(list) && exists u :: u in list && KeyOf(u) == key
    ensures exists i :: 0 <= i < |list| && KeyOf(list[i]) == key
                        && forall j :: 0 <= j < |list| && KeyOf(list[j]) == key ==> j == i
  {
    var u :| u in list && KeyOf(u) == key;
    var i :| 0 <= i < |list| && list[i] == u;
    forall j | 0 <= j < |list| && KeyOf(list[j]) == key
      ensures j == i
    {
      assert !Less(key, key);
    }
  }

  // ---- a table that does not change ----

  function Frozen(rows: set<User>, n: nat): (tables: seq<set<User>>)
    ensures |tables| == n && forall i :: 0 <= i < n ==> tables[i] == rows
  {
    seq(n, i => rows)
  }

  /** The rows after the k-th of the sorted list are the rest of that list. */
  lemma SuffixIsAfter(rows: set<User>, k: nat)
    requires DistinctKeys(rows) && 1 <= k <= |Sorted(rows)|
    ensures Sorted(After(rows, Some(KeyOf(Sorted(rows)[k - 1])))) == Sorted(rows)[k..]
  {
    SortedIsTheRows(rows);
    SortedIsTheRows(After(rows, Some(KeyOf(Sorted(rows)[k - 1]))));
    SuffixMembers(Sorted(rows), k);
    DescendingUnique(Sorted(After(rows, Some(KeyOf(Sorted(rows)[k - 1])))), Sorted(rows)[k..]);
  }

  lemma SuffixMembers(list: seq<User>, k: nat)
    requires Descending(list) && 1 <= k <= |list|
    ensures Descending(list[k..])
    ensures forall u :: u in list[k..] <==> u in list && Less(KeyOf(u), KeyOf(list[k - 1]))
  {
    forall u
      ensures u in list[k..] <==> u in list && Less(KeyOf(u), KeyOf(list[k - 1]))
    {
      if u in list[k..] {
        var i :| 0 <= i < |list[k..]| && list[k..][i] == u;
        assert list[k + i] == u;
      }
      if u in list && Less(KeyOf(u), KeyOf(list[k - 1])) {
        var i :| 0 <= i < |list| && list[i] == u;
        assert i >= k;
        assert list[k..][i - k] == u;
      }
    }
  }

  /** The cursor that points behind the first k rows of a frozen table. */
  ghost function CursorAt(rows: set<User>, k: nat): Option<Cursor>
    requires DistinctKeys(rows) && k <= |Sorted(rows)|
  {
    if k == 0 then None else Some(KeyOf(Sorted(rows)[k - 1]))
  }

  lemma FrozenPage(rows: set<User>, k: nat, limit: nat)
    requires DistinctKeys(rows) && limit >= 1 && k <= |Sorted(rows)|
    ensures ListAfter(rows, CursorAt(rows, k), limit)
            == Page(Take(Sorted(rows)[k..], limit), |Sorted(rows)| > k + limit)
  {
    PageIsPrefix(rows, CursorAt(rows, k), limit);
    RestOfList(rows, k);
  }

  lemma RestOfList(rows: set<User>, k: nat)
    requires DistinctKeys(rows) && k <= |Sorted(rows)|
    ensures Sorted(After(rows, CursorAt(rows, k))) == Sorted(rows)[k..]
  {
    if k == 0 {
      assert After(rows, None) == rows;
      assert Sorted(rows)[0..] == Sorted(rows);
    } else {
      SuffixIsAfter(rows, k);
    }
  }

  /** The number of pages a list of n rows fills; an empty list still takes one. */
  function PageCount(n: nat, limit: nat): nat
    requires limit >= 1
  {
    if n <= limit then 1 else 1 + PageCount(n - limit, limit)
  }

  lemma AddDivisor(a: nat, d: nat)
    requires d >= 1
    ensures (a + d) / d == a / d + 1
    ensures a < d ==> a / d == 0
  {
    assert a == d * (a / d) + a % d;
    DivUnique(a + d, d, a / d + 1, a % d);
    if a < d {
      DivUnique(a, d, 0, a);
    }
  }

  lemma {:induction false} PageCountIsCeil(n: nat, limit: nat)
    requires limit >= 1
    ensures PageCount(n, limit) == if n == 0 then 1 else (n + limit - 1) / limit
    ensures PageCount(n, limit) <= n + 1
  {
    if n > limit {
      PageCountIsCeil(n - limit, limit);
      AddDivisor(n - 1, limit);
    } else if n > 0 {
      AddDivisor(n - 1, limit);
    }
  }

  lemma OffsetPageUsers(rows: set<User>, k: nat, limit: nat)
    requires DistinctKeys(rows) && k <= |Sorted(rows)|
    ensures ListPage(rows, k, limit).users == Take(Sorted(rows)[k..], limit)
  {
  }

  lemma FullPageNext(rows: set<User>, k: nat, limit: nat)
    requires DistinctKeys(rows) && limit >= 1 && k + limit < |Sorted(rows)|
    ensures var page := ListAfter(rows, CursorAt(rows, k), limit);
            && page.users == ListPage(rows, k, limit).users
            && page.users + Sorted(rows)[k + limit..] == Sorted(rows)[k..]
            && NextCursor(page) == CursorAt(rows, k + limit) && CursorAt(rows, k + limit).Some?
  {
    FrozenPage(rows, k, limit);
    OffsetPageUsers(rows, k, limit);
    FullTake(Sorted(rows), k, limit);
  }

  lemma FullTake(list: seq<User>, k: nat, limit: nat)
    requires limit >= 1 && k + limit < |list|
    ensures var page := Take(list[k..], limit);
            && |page| == limit && page[limit - 1] == list[k + limit - 1]
            && page + list[k + limit..] == list[k..]
  {
  }

  lemma LastPageNext(rows: set<User>, k: nat, limit: nat)
    requires DistinctKeys(rows) && limit >= 1 && k <= |Sorted(rows)| <= k + limit
    ensures var page := ListAfter(rows, CursorAt(rows, k), limit);
            && page.users == ListPage(rows, k, limit).users == Sorted(rows)[k..]
            && NextCursor(page) == None
  {
    FrozenPage(rows, k, limit);
    OffsetPageUsers(rows, k, limit);
  }

  /** One step of a walk over copies of one table. */
  lemma WalkUnfolds(rows: set<User>, copies: nat, after: Option<Cursor>, limit: nat)
    requires DistinctKeys(rows) && copies >= 1
    ensures var page := ListAfter(rows, after, limit);
            var next := NextCursor(page);
            var w := Walk(Frozen(rows, copies), after, limit);
            if next.None? then w == Walked([page.users], true) && Flat(w.pages) == page.users
            else
              var rest := Walk(Frozen(rows, copies - 1), next, limit);
              w == Walked([page.users] + rest.pages, rest.finished) && Flat(w.pages) == page.users + Flat(rest.pages)
  {
    assert Frozen(rows, copies)[1..] == Frozen(rows, copies - 1);
    var page := ListAfter(rows, after, limit);
    var next := NextCursor(page);
    if next.None? {
      assert Flat([page.users]) == page.users + [] == page.users;
    } else {
      var rest := Walk(Frozen(rows, copies - 1), next, limit);
      assert ([page.users] + rest.pages)[1..] == rest.pages;
    }
  }

  ghost predicate PagesAre(rows: set<User>, pages: seq<seq<User>>, k: nat, limit: nat)
    requires DistinctKeys(rows)
  {
    forall i: nat :: i < |pages| ==> pages[i] == ListPage(rows, k + i * limit, limit).users
  }

  lemma PagesCons(rows: set<User>, pages: seq<seq<User>>, k: nat, limit: nat)
    requires DistinctKeys(rows) && PagesAre(rows, pages, k + limit, limit)
    ensures PagesAre(rows, [ListPage(rows, k, limit).users] + pages, k, limit)
  {
    var all := [ListPage(rows, k, limit).users] + pages;
    forall i: nat | i < |all|
      ensures all[i] == ListPage(rows, k + i * limit, limit).users
    {
      if i > 0 {
        assert all[i] == pages[i - 1];
        NextOffset(k, limit, i);
        assert pages[i - 1] == ListPage(rows, (k + limit) + (i - 1) * limit, limit).users;
      } else {
        assert k + 0 * limit == k;
      }
    }
  }

  lemma NextOffset(k: nat, limit: nat, i: nat)
    requires i > 0
    ensures (k + limit) + (i - 1) * limit == k + i * limit
  {
  }

  /** A finished walk that reads a frozen table from position k on. */
  ghost predicate ReadsFrom(rows: set<User>, w: Walked, k: nat, limit: nat)
    requires DistinctKeys(rows) && limit >= 1 && k <= |Sorted(rows)|
  {
    && w.finished
    && Flat(w.pages) == Sorted(rows)[k..]
    && |w.pages| == PageCount(|Sorted(rows)| - k, limit)
    && PagesAre(rows, w.pages, k, limit)
  }

  lemma PrependPage(rows: set<User>, first: seq<User>, rest: Walked, k: nat, limit: nat)
    requires DistinctKeys(rows) && limit >= 1 && k + limit < |Sorted(rows)|
    requires ReadsFrom(rows, rest, k + limit, limit)
    requires first == ListPage(rows, k, limit).users && first + Sorted(rows)[k + limit..] == Sorted(rows)[k..]
    ensures ReadsFrom(rows, Walked([first] + rest.pages, true), k, limit)
  {
    PagesCons(rows, rest.pages, k, limit);
    assert ([first] + rest.pages)[1..] == rest.pages;
    var n := |Sorted(rows)| - k;
    assert n - limit == |Sorted(rows)| - (k + limit);
  }

  lemma OnlyPage(rows: set<User>, first: seq<User>, k: nat, limit: nat)
    requires DistinctKeys(rows) && limit >= 1 && k <= |Sorted(rows)| <= k + limit
    requires first == ListPage(rows, k, limit).users == Sorted(rows)[k..]
    ensures ReadsFrom(rows, Walked([first], true), k, limit)
  {
    assert Flat([first]) == first + [] == first;
    assert k + 0 * limit == k;
  }

  /** From position k on, a walk over enough copies of the table reads the rest of the sorted list
      in that many pages, each of them the offset page at its place. */
  lemma {:induction false} FrozenWalkFrom(rows: set<User>, k: nat, limit: nat, copies: nat)
    requires DistinctKeys(rows) && limit >= 1 && k <= |Sorted(rows)|
    requires copies >= PageCount(|Sorted(rows)| - k, limit)
    ensures ReadsFrom(rows, Walk(Frozen(rows, copies), CursorAt(rows, k), limit), k, limit)
    decreases |Sorted(rows)| - k
  {
    if |Sorted(rows)| > k + limit {
      FewerPages(|Sorted(rows)|, k, limit);
      FrozenWalkFrom(rows, k + limit, limit, copies - 1);
      FrozenWalkOn(rows, k, limit, copies);
    } else {
      FrozenWalkEnds(rows, k, limit, copies);
    }
  }

  lemma FewerPages(n: nat, k: nat, limit: nat)
    requires limit >= 1 && k + limit < n
    ensures PageCount(n - k, limit) == 1 + PageCount(n - (k + limit), limit)
  {
    assert n - k - limit == n - (k + limit);
  }

  lemma FrozenWalkOn(rows: set<User>, k: nat, limit: nat, copies: nat)
    requires DistinctKeys(rows) && limit >= 1 && k + limit < |Sorted(rows)| && copies >= 1
    requires ReadsFrom(rows, Walk(Frozen(rows, copies - 1), CursorAt(rows, k + limit), limit), k + limit, limit)
    ensures ReadsFrom(rows, Walk(Frozen(rows, copies), CursorAt(rows, k), limit), k, limit)
  {
    WalkUnfolds(rows, copies, CursorAt(rows, k), limit);
    FullPageNext(rows, k, limit);
    var rest := Walk(Frozen(rows, copies - 1), CursorAt(rows, k + limit), limit);
    PrependPage(rows, ListPage(rows, k, limit).users, rest, k, limit);
  }

  lemma FrozenWalkEnds(rows: set<User>, k: nat, limit: nat, copies: nat)
    requires DistinctKeys(rows) && limit >= 1 && k <= |Sorted(rows)| <= k + limit && copies >= 1
    ensures ReadsFrom(rows, Walk(Frozen(rows, copies), CursorAt(rows, k), limit), k, limit)
  {
    WalkUnfolds(rows, copies, CursorAt(rows, k), limit);
    LastPageNext(rows, k, limit);
    OnlyPage(rows, ListPage(rows, k, limit).users, k, limit);
  }

  lemma PagesAreNumbered(rows: set<User>, pages: seq<seq<User>>, limit: nat, i: nat)
    requires DistinctKeys(rows) && limit >= 1 && PagesAre(rows, pages, 0, limit) && i < |pages|
    ensures pages[i] == ListUsers(rows, i + 1, limit).0
  {
    assert 0 + i * limit == (i + 1 - 1) * limit;
  }

  lemma TotalPages(rows: set<User>, limit: nat)
    requires DistinctKeys(rows) && limit >= 1 && rows != {}
    ensures ListUsers(rows, 1, limit).1.totalPages == PageCount(|rows|, limit)
  {
    PageCountIsCeil(|rows|, limit);
  }

  lemma WholeWalk(rows: set<User>, limit: nat, copies: nat)
    requires DistinctKeys(rows) && limit >= 1 && copies >= |rows| + 1
    ensures var w := Walk(Frozen(rows, copies), None, limit);
            && w.finished && Flat(w.pages) == Sorted(rows)
            && |w.pages| == PageCount(|rows|, limit)
            && PagesAre(rows, w.pages, 0, limit)
  {
    SortedIsTheRows(rows);
    PageCountIsCeil(|rows|, limit);
    assert |Sorted(rows)| - 0 == |rows|;
    FrozenWalkFrom(rows, 0, limit, copies);
    assert CursorAt(rows, 0) == None;
    assert Sorted(rows)[0..] == Sorted(rows);
  }

  /** On a frozen table a walk reads the whole sorted list in max(1, ceil(n/limit)) pages, and
      its i-th page is the offset page with number i + 1. */
  lemma FrozenWalk(rows: set<User>, limit: nat, copies: nat)
    requires DistinctKeys(rows) && limit >= 1 && copies >= |rows| + 1
    ensures var w := Walk(Frozen(rows, copies), None, limit);
            && w.finished && Flat(w.pages) == Sorted(rows)
            && |w.pages| == (if rows == {} then 1 else (|rows| + limit - 1) / limit)
            && (rows != {} ==> |w.pages| == ListUsers(rows, 1, limit).1.totalPages)
            && forall i :: 0 <= i < |w.pages| ==> w.pages[i] == ListUsers(rows, i + 1, limit).0
  {
    WholeWalk(rows, limit, copies);
    var w := Walk(Frozen(rows, copies), None, limit);
    PageCountIsCeil(|rows|, limit);
    if rows != {} {
      TotalPages(rows, limit);
    }
    forall i | 0 <= i < |w.pages|
      ensures w.pages[i] == ListUsers(rows, i + 1, limit).0
    {
      PagesAreNumbered(rows, w.pages, limit, i);
    }
  }
}
