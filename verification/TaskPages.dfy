/** Keyset pagination of the task list, and the chunked raw output of one task. */
module TaskPages {
  import opened Wrappers
  import opened Collections
  import opened Strings
  import opened Decimal

  const MAX_PAGE_SIZE := 200

  datatype Task = Task(id: int, project: int, template: int, status: string)
  datatype Query = Query(project: int, template: Option<int>, statuses: seq<string>)

  predicate Matches(t: Task, q: Query) {
    && t.project == q.project
    && (q.template.Some? ==> t.template == q.template.value)
    && (q.statuses != [] ==> t.status in q.statuses)
  }

  /** A table in the order of its primary key, newest first. */
  ghost predicate Sorted(s: seq<Task>) {
    (forall i, j | 0 <= i < j < |s| :: s[i].id > s[j].id) && forall i | 0 <= i < |s| :: s[i].id > 0
  }

  predicate Wanted(t: Task, q: Query, before: int) {
    Matches(t, q) && (before > 0 ==> t.id < before)
  }

  /** Every matching task older than the cursor (no cursor: 0), newest first. */
  function Listing(table: seq<Task>, q: Query, before: int): seq<Task> {
    if table == [] then []
    else (if Wanted(table[0], q, before) then [table[0]] else []) + Listing(table[1..], q, before)
  }

  function Limit(s: seq<Task>, count: int): seq<Task> {
    if 0 < count < |s| then s[..count] else s
  }

  function GetTasks(table: seq<Task>, q: Query, before: int, count: int): seq<Task> {
    Limit(Listing(table, q, before), count)
  }

  function PositiveOr(text: string, default: int): int {
    var v := Atoi(text);
    if v.Some? && v.value > 0 then v.value else default
  }

  /** parseTasksPageParams: `count` wins over the legacy `limit` even when it is not a number. */
  method ParseTasksPageParams(count: string, limit: string, beforeText: string)
    returns (fetch: int, before: int, pageSize: int)
    ensures 1 <= pageSize <= MAX_PAGE_SIZE && fetch == pageSize + 1 && before >= 0
    ensures var text := if count != "" then count else limit;
            var asked := PositiveOr(text, MAX_PAGE_SIZE);
            pageSize == if text != "" && asked < MAX_PAGE_SIZE then asked else MAX_PAGE_SIZE
    ensures before == if beforeText == "" then 0 else PositiveOr(beforeText, 0)
  {
    pageSize := MAX_PAGE_SIZE;
    if count != "" {
      var v := Atoi(count);
      if v.Some? && v.value > 0 {
        pageSize := v.value;
      }
    } else if limit != "" {
      var v := Atoi(limit);
      if v.Some? && v.value > 0 {
        pageSize := v.value;
      }
    }
    if pageSize > MAX_PAGE_SIZE {
      pageSize := MAX_PAGE_SIZE;
    }
    fetch := pageSize + 1;
    before := 0;
    if beforeText != "" {
      var v := Atoi(beforeText);
      if v.Some? && v.value > 0 {
        before := v.value;
      }
    }
  }

  datatype Page = Page(tasks: seq<Task>, hasNext: bool)

  /** writeTasksList with a page size: fetch one row too many, report it, drop it. */
  function ListPage(table: seq<Task>, q: Query, before: int, pageSize: nat): Page {
    var rows := GetTasks(table, q, before, pageSize + 1);
    if |rows| > pageSize then Page(rows[..pageSize], true) else Page(rows, false)
  }

  lemma {:induction false} ListingMembers(table: seq<Task>, q: Query, before: int)
    ensures forall t :: t in Listing(table, q, before) <==> t in table && Wanted(t, q, before)
  {
    if table != [] {
      ListingMembers(table[1..], q, before);
      assert table == [table[0]] + table[1..];
    }
  }

  /** What is listed, spelled out: the project's tasks, of the template and with one of the statuses if
      the query names any, below the cursor if there is one. */
  lemma ListedIff(table: seq<Task>, q: Query, before: int, t: Task)
    ensures t in Listing(table, q, before) <==>
            && t in table && t.project == q.project
            && (q.template == None || q.template == Some(t.template))
            && (q.statuses == [] || t.status in q.statuses)
            && (before <= 0 || t.id < before)
  {
    ListingMembers(table, q, before);
  }

  lemma {:induction false} ListingSorted(table: seq<Task>, q: Query, before: int)
    requires Sorted(table)
    ensures Sorted(Listing(table, q, before))
  {
    if table != [] {
      ListingSorted(table[1..], q, before);
      ListingMembers(table[1..], q, before);
      var rest := Listing(table[1..], q, before);
      forall i | 0 <= i < |rest|
        ensures rest[i].id < table[0].id
      {
        assert rest[i] in rest;
        var j :| 0 <= j < |table[1..]| && table[1..][j] == rest[i];
      }
    }
  }

  /** A sorted table is determined by its rows. */
  lemma {:induction false} SortedUnique(a: seq<Task>, b: seq<Task>)
    requires Sorted(a) && Sorted(b) && forall t :: t in a <==> t in b
    ensures a == b
  {
    if a == [] {
      if b != [] {
        HeadIsIn(b);
      }
    } else {
      assert a[0] in b;
      assert b[0] in a;
      assert a[0] == b[0];
      assert a == [a[0]] + a[1..] && b == [b[0]] + b[1..];
      NotInTail(a);
      NotInTail(b);
      forall t
        ensures t in a[1..] <==> t in b[1..]
      {
        assert t in a <==> t == a[0] || t in a[1..];
        assert t in b <==> t == b[0] || t in b[1..];
      }
      SortedUnique(a[1..], b[1..]);
    }
  }

  lemma NotInTail(a: seq<Task>)
    requires Sorted(a) && a != []
    ensures a[0] !in a[1..]
  {
  }

  /** The page is the head of the listing, all of it unless the header says otherwise. */
  lemma PageIsHead(table: seq<Task>, q: Query, before: int, pageSize: nat)
    requires pageSize >= 1
    ensures var page := ListPage(table, q, before, pageSize);
            var all := Listing(table, q, before);
            && (page.hasNext <==> |all| > pageSize)
            && page.tasks == if page.hasNext then all[..pageSize] else all
  {
  }

  /** The header is true exactly when matching tasks are left out, and those are older than every
      task of the page. */
  lemma HasNextIffOlderRemain(table: seq<Task>, q: Query, before: int, pageSize: nat)
    requires Sorted(table) && pageSize >= 1
    ensures var page := ListPage(table, q, before, pageSize);
            var all := Listing(table, q, before);
            && (page.hasNext <==> exists t :: t in all && t !in page.tasks)
            && forall t, u | t in all && t !in page.tasks && u in page.tasks :: t.id < u.id
  {
    var page := ListPage(table, q, before, pageSize);
    var all := Listing(table, q, before);
    PageIsHead(table, q, before, pageSize);
    ListingSorted(table, q, before);
    if page.hasNext {
      HeadIsOlder(all, pageSize);
    }
  }

  lemma HeadIsOlder(all: seq<Task>, n: nat)
    requires Sorted(all) && n < |all|
    ensures exists t :: t in all && t !in all[..n]
    ensures forall t, u | t in all && t !in all[..n] && u in all[..n] :: t.id < u.id
  {
    assert all[n] in all && all[n] !in all[..n];
    forall t, u | t in all && t !in all[..n] && u in all[..n]
      ensures t.id < u.id
    {
      var i :| 0 <= i < |all| && all[i] == t;
      var j :| 0 <= j < n && all[j] == u;
      assert forall x | 0 <= x < n :: all[x] in all[..n];
    }
  }

  // --- the walk ---

  /** Rows are only inserted with ids above every id in the table, as autoincrement does. */
  ghost predicate Evolves(was: seq<Task>, now: seq<Task>) {
    forall t | t in now :: t in was || forall u | u in was :: t.id > u.id
  }

  ghost predicate Keeps(was: seq<Task>, now: seq<Task>) {
    forall t | t in was :: t in now
  }

  ghost predicate AllSorted(env: nat -> seq<Task>) {
    forall k: nat :: Sorted(env(k))
  }

  /** Between request k and the next, newer tasks may be inserted. */
  ghost predicate OnlyInserts(env: nat -> seq<Task>, k: nat) {
    Evolves(env(k), env(k + 1)) && Keeps(env(k), env(k + 1))
  }

  /** From request k on, nothing else happens. */
  ghost predicate InsertsFrom(env: nat -> seq<Task>, k: nat) {
    forall j: nat | j >= k :: OnlyInserts(env, j)
  }

  /** Following `before` = id of the last row until the header says there is no next page; request k
      is answered from the table env(k). */
  ghost function Walk(env: nat -> seq<Task>, k: nat, q: Query, before: int, pageSize: nat): seq<Task>
    requires AllSorted(env) && pageSize >= 1 && before >= 0
    decreases if before == 0 then 1 else 0, before
  {
    var page := ListPage(env(k), q, before, pageSize);
    if !page.hasNext then page.tasks
    else
      CursorDecreases(env(k), q, before, pageSize);
      page.tasks + Walk(env, k + 1, q, page.tasks[|page.tasks| - 1].id, pageSize)
  }

  /** One request of the walk, with the table it is answered from named. */
  lemma WalkStep(env: nat -> seq<Task>, k: nat, q: Query, before: int, pageSize: nat, table: seq<Task>)
    requires AllSorted(env) && pageSize >= 1 && before >= 0 && table == env(k)
    ensures Sorted(table)
    ensures var page := ListPage(table, q, before, pageSize);
            if page.hasNext then
              && |page.tasks| == pageSize
              && var cursor := page.tasks[pageSize - 1].id;
                 cursor > 0 && (before > 0 ==> cursor < before)
                 && Walk(env, k, q, before, pageSize) == page.tasks + Walk(env, k + 1, q, cursor, pageSize)
            else Walk(env, k, q, before, pageSize) == page.tasks
  {
    if ListPage(table, q, before, pageSize).hasNext {
      CursorDecreases(table, q, before, pageSize);
    }
  }

  lemma CursorDecreases(table: seq<Task>, q: Query, before: int, pageSize: nat)
    requires Sorted(table) && pageSize >= 1 && ListPage(table, q, before, pageSize).hasNext
    ensures var tasks := ListPage(table, q, before, pageSize).tasks;
            && |tasks| == pageSize
            && tasks[pageSize - 1].id > 0 && (before > 0 ==> tasks[pageSize - 1].id < before)
  {
    PageIsHead(table, q, before, pageSize);
    ListingMembers(table, q, before);
    ListingSorted(table, q, before);
    var tasks := ListPage(table, q, before, pageSize).tasks;
    assert tasks[pageSize - 1] == Listing(table, q, before)[pageSize - 1];
    assert tasks[pageSize - 1] in Listing(table, q, before);
  }

  /** Resuming below the last row of a page lists exactly what the page left out. */
  lemma ListingSplits(table: seq<Task>, q: Query, before: int, n: nat)
    requires Sorted(table) && before >= 0 && 1 <= n <= |Listing(table, q, before)|
    ensures Listing(table, q, before)[n..] == Listing(table, q, Listing(table, q, before)[n - 1].id)
  {
    var all := Listing(table, q, before);
    var cursor := all[n - 1].id;
    ListingMembers(table, q, before);
    ListingMembers(table, q, cursor);
    ListingSorted(table, q, before);
    ListingSorted(table, q, cursor);
    assert all[n - 1] in all && cursor > 0;
    TailIsBelow(all, n);
    SortedUnique(all[n..], Listing(table, q, cursor));
  }

  lemma TailIsBelow(all: seq<Task>, n: nat)
    requires Sorted(all) && 1 <= n <= |all|
    ensures Sorted(all[n..]) && forall t :: t in all[n..] <==> t in all && t.id < all[n - 1].id
  {
    forall t
      ensures t in all[n..] <==> t in all && t.id < all[n - 1].id
    {
      if t in all[n..] {
        var j :| 0 <= j < |all[n..]| && all[n..][j] == t;
        assert all[n + j] == t;
      }
      if t in all && t.id < all[n - 1].id {
        var j :| 0 <= j < |all| && all[j] == t;
        assert all[n..][j - n] == t;
      }
    }
  }

  /** Inserting newer rows does not change what is listed below an existing row. */
  lemma InsertsAreAbove(was: seq<Task>, now: seq<Task>, q: Query, cursor: int)
    requires Sorted(was) && Sorted(now) && Evolves(was, now) && Keeps(was, now)
    requires cursor > 0 && exists u :: u in was && u.id == cursor
    ensures Listing(now, q, cursor) == Listing(was, q, cursor)
  {
    ListingMembers(was, q, cursor);
    ListingMembers(now, q, cursor);
    ListingSorted(was, q, cursor);
    ListingSorted(now, q, cursor);
    SortedUnique(Listing(now, q, cursor), Listing(was, q, cursor));
  }

  lemma LastOfPageIsListed(table: seq<Task>, q: Query, before: int, pageSize: nat)
    requires Sorted(table) && pageSize >= 1 && ListPage(table, q, before, pageSize).hasNext
    ensures var tasks := ListPage(table, q, before, pageSize).tasks;
            && |tasks| == pageSize && tasks[pageSize - 1] in table
            && tasks == Listing(table, q, before)[..pageSize] && pageSize <= |Listing(table, q, before)|
  {
    PageIsHead(table, q, before, pageSize);
    ListingMembers(table, q, before);
    var all := Listing(table, q, before);
    assert all[pageSize - 1] in all;
  }

  /** The walk refines the full listing: whatever newer tasks are inserted meanwhile, the pages put
      together are exactly the listing at the time of the first request. */
  lemma {:induction false} WalkIsListing(env: nat -> seq<Task>, k: nat, q: Query, before: int, pageSize: nat)
    requires AllSorted(env) && pageSize >= 1 && before >= 0
    requires InsertsFrom(env, k)
    ensures Walk(env, k, q, before, pageSize) == Listing(env(k), q, before)
    decreases if before == 0 then 1 else 0, before
  {
    var table, cursor := CursorOf(env, k, q, before, pageSize);
    if ListPage(table, q, before, pageSize).hasNext {
      var next := NextTable(env, k);
      WalkIsListing(env, k + 1, q, cursor, pageSize);
      WalkGoesOn(env, k, q, before, pageSize, table, next, cursor);
    } else {
      WalkStep(env, k, q, before, pageSize, table);
      PageIsHead(table, q, before, pageSize);
    }
  }

  lemma CursorOf(env: nat -> seq<Task>, k: nat, q: Query, before: int, pageSize: nat)
    returns (table: seq<Task>, cursor: int)
    requires AllSorted(env) && pageSize >= 1
    ensures table == env(k) && Sorted(table)
    ensures var page := ListPage(table, q, before, pageSize);
            page.hasNext ==> && |page.tasks| == pageSize && cursor == page.tasks[pageSize - 1].id
                             && cursor > 0 && (before > 0 ==> cursor < before)
  {
    table, cursor := env(k), 0;
    if ListPage(table, q, before, pageSize).hasNext {
      CursorDecreases(table, q, before, pageSize);
      cursor := ListPage(table, q, before, pageSize).tasks[pageSize - 1].id;
    }
  }

  lemma WalkGoesOn(
    env: nat -> seq<Task>, k: nat, q: Query, before: int, pageSize: nat,
    table: seq<Task>, next: seq<Task>, cursor: int)
    requires AllSorted(env) && pageSize >= 1 && before >= 0 && cursor >= 0 && table == env(k)
    requires Sorted(table) && Sorted(next) && Evolves(table, next) && Keeps(table, next)
    requires var page := ListPage(table, q, before, pageSize);
             page.hasNext && |page.tasks| == pageSize && cursor == page.tasks[pageSize - 1].id
    requires Walk(env, k + 1, q, cursor, pageSize) == Listing(next, q, cursor)
    ensures Walk(env, k, q, before, pageSize) == Listing(table, q, before)
  {
    WalkStep(env, k, q, before, pageSize, table);
    PageThenRest(table, next, q, before, pageSize);
  }

  lemma NextTable(env: nat -> seq<Task>, k: nat) returns (next: seq<Task>)
    requires AllSorted(env) && InsertsFrom(env, k)
    ensures next == env(k + 1) && Sorted(next) && Evolves(env(k), next) && Keeps(env(k), next)
    ensures InsertsFrom(env, k + 1)
  {
    next := env(k + 1);
    assert OnlyInserts(env, k);
  }

  lemma PageThenRest(table: seq<Task>, next: seq<Task>, q: Query, before: int, pageSize: nat)
    requires Sorted(table) && Sorted(next) && Evolves(table, next) && Keeps(table, next)
    requires pageSize >= 1 && before >= 0 && ListPage(table, q, before, pageSize).hasNext
    ensures var tasks := ListPage(table, q, before, pageSize).tasks;
            && |tasks| == pageSize && tasks[pageSize - 1].id > 0
            && tasks + Listing(next, q, tasks[pageSize - 1].id) == Listing(table, q, before)
  {
    var tasks, all := ListPage(table, q, before, pageSize).tasks, Listing(table, q, before);
    CursorDecreases(table, q, before, pageSize);
    LastOfPageIsListed(table, q, before, pageSize);
    InsertsAreAbove(table, next, q, tasks[pageSize - 1].id);
    ListingSplits(table, q, before, pageSize);
    assert all == all[..pageSize] + all[pageSize..];
  }

  /** With rows also being deleted, the walk still returns every task at most once, newest first. */
  lemma {:induction false} WalkIsSorted(env: nat -> seq<Task>, k: nat, q: Query, before: int, pageSize: nat)
    requires AllSorted(env) && pageSize >= 1 && before >= 0
    ensures Sorted(Walk(env, k, q, before, pageSize))
    ensures forall t | t in Walk(env, k, q, before, pageSize) :: Wanted(t, q, before)
    decreases if before == 0 then 1 else 0, before
  {
    var table := env(k);
    WalkStep(env, k, q, before, pageSize, table);
    var page := ListPage(table, q, before, pageSize);
    PageIsSorted(table, q, before, pageSize);
    if page.hasNext {
      var cursor := page.tasks[pageSize - 1].id;
      var rest := Walk(env, k + 1, q, cursor, pageSize);
      WalkIsSorted(env, k + 1, q, cursor, pageSize);
      SortedConcat(page.tasks, rest, cursor, q);
      WantedBelow(rest, q, cursor, before);
    }
  }

  lemma PageIsSorted(table: seq<Task>, q: Query, before: int, pageSize: nat)
    requires Sorted(table) && pageSize >= 1
    ensures var tasks := ListPage(table, q, before, pageSize).tasks;
            Sorted(tasks) && forall t | t in tasks :: Wanted(t, q, before)
  {
    PageIsHead(table, q, before, pageSize);
    ListingMembers(table, q, before);
    ListingSorted(table, q, before);
    assert forall t | t in ListPage(table, q, before, pageSize).tasks :: t in Listing(table, q, before);
  }

  lemma WantedBelow(tasks: seq<Task>, q: Query, cursor: int, before: int)
    requires cursor > 0 && (before > 0 ==> cursor < before)
    requires forall t | t in tasks :: Wanted(t, q, cursor)
    ensures forall t | t in tasks :: Wanted(t, q, before)
  {
  }

  /** ... and it returns every matching task that is there for the whole walk. */
  lemma {:induction false} WalkSeesPresent(env: nat -> seq<Task>, k: nat, q: Query, before: int, pageSize: nat, t: Task)
    requires AllSorted(env) && pageSize >= 1 && before >= 0
    requires Wanted(t, q, before) && forall j: nat | j >= k :: t in env(j)
    ensures t in Walk(env, k, q, before, pageSize)
    decreases if before == 0 then 1 else 0, before
  {
    var table := env(k);
    WalkStep(env, k, q, before, pageSize, table);
    var page := ListPage(table, q, before, pageSize);
    OnPageOrBelow(table, q, before, pageSize, t);
    if page.hasNext && t !in page.tasks {
      WalkSeesPresent(env, k + 1, q, page.tasks[pageSize - 1].id, pageSize, t);
    }
  }

  lemma OnPageOrBelow(table: seq<Task>, q: Query, before: int, pageSize: nat, t: Task)
    requires Sorted(table) && pageSize >= 1 && t in table && Wanted(t, q, before)
    ensures var page := ListPage(table, q, before, pageSize);
            t in page.tasks || (page.hasNext && |page.tasks| == pageSize && Wanted(t, q, page.tasks[pageSize - 1].id))
  {
    var page := ListPage(table, q, before, pageSize);
    PageIsHead(table, q, before, pageSize);
    ListingMembers(table, q, before);
    if page.hasNext && t !in page.tasks {
      CursorDecreases(table, q, before, pageSize);
      HasNextIffOlderRemain(table, q, before, pageSize);
      assert page.tasks[pageSize - 1] in page.tasks;
    }
  }

  lemma SortedConcat(head: seq<Task>, tail: seq<Task>, cursor: int, q: Query)
    requires Sorted(head) && Sorted(tail) && head != [] && cursor == head[|head| - 1].id
    requires forall t | t in tail :: Wanted(t, q, cursor)
    ensures Sorted(head + tail)
  {
    forall i, j | 0 <= i < j < |head + tail|
      ensures (head + tail)[i].id > (head + tail)[j].id
    {
      assert j >= |head| ==> tail[j - |head|] in tail;
    }
  }

  // --- raw output ---

  const CHUNK_SIZE := 10000

  /** outputToBytes; `clear` strips ANSI codes. */
  function OutputBytes(lines: seq<string>, clear: string -> string): string {
    if lines == [] then "" else OutputBytes(lines[..|lines| - 1], clear) + clear(lines[|lines| - 1]) + "\n"
  }

  method OutputToBytes(lines: seq<string>, clear: string -> string) returns (buffer: string)
    ensures buffer == OutputBytes(lines, clear)
  {
    buffer := "";
    for i := 0 to |lines|
      invariant buffer == OutputBytes(lines[..i], clear)
    {
      assert lines[..i + 1][..i] == lines[..i];
      buffer := buffer + clear(lines[i]) + "\n";
    }
    assert lines[..|lines|] == lines;
  }

  function Chunk(lines: seq<string>, offset: nat, count: nat): seq<string> {
    if offset >= |lines| then []
    else if offset + count <= |lines| then lines[offset..offset + count]
    else lines[offset..]
  }

  lemma {:induction false} OutputBytesConcat(a: seq<string>, b: seq<string>, clear: string -> string)
    ensures OutputBytes(a + b, clear) == OutputBytes(a, clear) + OutputBytes(b, clear)
  {
    if b == [] {
      assert a + b == a;
    } else {
      var c, init, last := a + b, b[..|b| - 1], b[|b| - 1];
      OutputBytesConcat(a, init, clear);
      assert c[..|c| - 1] == a + init && c[|c| - 1] == last;
      assert OutputBytes(c, clear) == OutputBytes(a + init, clear) + clear(last) + "\n";
      assert OutputBytes(b, clear) == OutputBytes(init, clear) + clear(last) + "\n";
    }
  }

  lemma OneLine(line: string, clear: string -> string)
    ensures OutputBytes([line], clear) == clear(line) + "\n"
  {
    assert [line][..0] == [] && OutputBytes([], clear) == "";
  }

  /** The output can be split back into its cleared lines. */
  lemma {:induction false} OutputSplits(lines: seq<string>, clear: string -> string)
    requires forall i | 0 <= i < |lines| :: '\n' !in clear(lines[i])
    ensures var parts := Split(OutputBytes(lines, clear), '\n');
            |parts| == |lines| + 1 && parts[|lines|] == "" && forall i | 0 <= i < |lines| :: parts[i] == clear(lines[i])
  {
    if lines == [] {
      SplitOne("", '\n');
    } else {
      var first, rest := [lines[0]], lines[1..];
      assert lines == first + rest;
      OutputBytesConcat(first, rest, clear);
      OneLine(lines[0], clear);
      OutputSplits(rest, clear);
      SplitCons(clear(lines[0]), OutputBytes(rest, clear), '\n');
      assert OutputBytes(lines, clear) == clear(lines[0]) + ['\n'] + OutputBytes(rest, clear);
      assert Split(OutputBytes(lines, clear), '\n') == [clear(lines[0])] + Split(OutputBytes(rest, clear), '\n');
    }
  }

  lemma ChunkExtends(lines: seq<string>, offset: nat, clear: string -> string)
    requires offset <= |lines|
    ensures var next := offset + |Chunk(lines, offset, CHUNK_SIZE)|;
            && next <= |lines|
            && OutputBytes(lines[..next], clear)
                 == OutputBytes(lines[..offset], clear) + OutputBytes(Chunk(lines, offset, CHUNK_SIZE), clear)
            && (next < offset + CHUNK_SIZE ==> next == |lines|)
            && next <= offset + CHUNK_SIZE
  {
    var chunk := Chunk(lines, offset, CHUNK_SIZE);
    assert lines[..offset + |chunk|] == lines[..offset] + chunk;
    OutputBytesConcat(lines[..offset], chunk, clear);
  }

  /** How many lines get out: all, unless a query that is made before the last line fails. Queries are
      made at the multiples of the chunk size. */
  function CutAt(total: nat, failing: Option<nat>): (n: nat)
    ensures n <= total
  {
    if failing.Some? && failing.value % CHUNK_SIZE == 0 && failing.value < total then failing.value else total
  }

  lemma NextMultiple(a: nat, b: nat)
    requires a % CHUNK_SIZE == 0 && b % CHUNK_SIZE == 0 && a < b
    ensures a + CHUNK_SIZE <= b
  {
  }

  /** GetTaskRawOutput: chunk by chunk until a short one. `failing` is the offset of the query that
      fails, if any: at 0 the request is refused, later the body is cut at a chunk boundary. */
  method GetTaskRawOutput(lines: seq<string>, clear: string -> string, failing: Option<nat>)
    returns (status: int, body: string)
    ensures status == if failing == Some(0) then 400 else 200
    ensures failing == None ==> body == OutputBytes(lines, clear)
    ensures body == OutputBytes(lines[..CutAt(|lines|, failing)], clear)
  {
    status, body := 200, "";
    var offset: nat := 0;
    var eof := false;
    assert lines[..0] == [];
    while !eof
      invariant offset <= |lines| && body == OutputBytes(lines[..offset], clear)
      invariant eof ==> offset == |lines|
      invariant !eof ==> offset % CHUNK_SIZE == 0
      invariant offset > 0 || eof ==> failing != Some(0)
      invariant failing.Some? && failing.value % CHUNK_SIZE == 0 && failing.value < |lines| ==> offset <= failing.value
      decreases |lines| - offset, !eof
    {
      if failing == Some(offset) {
        if offset == 0 {
          status := 400;
        }
        assert offset == CutAt(|lines|, failing);
        return;
      }
      var output := Chunk(lines, offset, CHUNK_SIZE);
      ChunkExtends(lines, offset, clear);
      if failing.Some? && failing.value % CHUNK_SIZE == 0 && offset < failing.value {
        NextMultiple(offset, failing.value);
      }
      if |output| > 0 {
        offset := offset + |output|;
        var data := OutputToBytes(output, clear);
        body := body + data;
      }
      eof := |output| < CHUNK_SIZE;
    }
    assert lines[..|lines|] == lines;
    assert CutAt(|lines|, failing) == |lines|;
  }
}
