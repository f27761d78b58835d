/**
 * The teacher's class list (`TeacherClassManager`): join-code generation,
 * class creation, loading and sorting the teacher's classes, pagination,
 * selection, and rename / delete of the selected class.
 */
module ClassList {
  import opened Wrappers
  import opened Text
  import opened Firestore
  import opened Selection
  import opened ClassDocs

  // ---------------------------------------------------------- join codes

  /** The join-code alphabet: capitals and digits without I, O, 0 and 1. */
  const Alphabet: string := "ABCDEFGHJKLMNPQRSTUVWXYZ23456789"

  /** The code a sequence of `rng.Next(alphabet.Length)` draws spells. */
  function CodeOf(draws: seq<nat>): (code: string)
    requires forall i :: 0 <= i < |draws| ==> draws[i] < |Alphabet|
    ensures |code| == |draws|
    ensures forall i :: 0 <= i < |code| ==> code[i] == Alphabet[draws[i]]
  {
    seq(|draws|, i requires 0 <= i < |draws| => Alphabet[draws[i]])
  }

  predicate ValidDraws(draws: seq<nat>) {
    forall i :: 0 <= i < |draws| ==> draws[i] < |Alphabet|
  }

  /** Every join code is drawn from the alphabet, so it never holds a look-alike I, O, 0 or 1. */
  lemma {:induction false} CodeAvoidsLookalikes(draws: seq<nat>)
    requires ValidDraws(draws)
    ensures |Alphabet| == 32
    ensures forall c :: c in CodeOf(draws) ==> c in Alphabet
    ensures 'I' !in CodeOf(draws) && 'O' !in CodeOf(draws) && '0' !in CodeOf(draws) && '1' !in CodeOf(draws)
  {
    var code := CodeOf(draws);
    forall c | c in code ensures c in Alphabet && c !in {'I', 'O', '0', '1'} {
      var i :| 0 <= i < |code| && code[i] == c;
      var k := draws[i];
      assert Alphabet[k] == c;
    }
  }

  /** One pass of the uniqueness loop: the draws for one code and whether its query went through. */
  datatype Attempt = Attempt(draws: seq<nat>, queryOk: bool)

  predicate ValidAttempts(attempts: seq<Attempt>, len: nat) {
    forall k :: 0 <= k < |attempts| ==> |attempts[k].draws| == len && ValidDraws(attempts[k].draws)
  }

  /** How the uniqueness loop ends: with a code no class has, on a faulted query,
      or (a bound the source does not have) when the given attempts run out. */
  datatype CodeSearch = Free(code: string) | QueryFaulted | OutOfAttempts

  function SearchCode(docs: map<Path, Doc>, attempts: seq<Attempt>, len: nat): (r: CodeSearch)
    requires ValidAttempts(attempts, len)
    ensures r.Free? ==> !CodeInUse(docs, r.code) && |r.code| == len
    decreases |attempts|
  {
    if attempts == [] then OutOfAttempts
    else if !attempts[0].queryOk then QueryFaulted
    else if !CodeInUse(docs, CodeOf(attempts[0].draws)) then Free(CodeOf(attempts[0].draws))
    else SearchCode(docs, attempts[1..], len)
  }

  /** How many queries the loop issues. */
  function Tries(docs: map<Path, Doc>, attempts: seq<Attempt>, len: nat): (n: nat)
    requires ValidAttempts(attempts, len)
    ensures n <= |attempts|
    decreases |attempts|
  {
    if attempts == [] then 0
    else if !attempts[0].queryOk || !CodeInUse(docs, CodeOf(attempts[0].draws)) then 1
    else 1 + Tries(docs, attempts[1..], len)
  }

  /** The code queries issued by the first `n` attempts, in order. */
  function Queries(attempts: seq<Attempt>, len: nat, n: nat): (calls: seq<Call>)
    requires ValidAttempts(attempts, len) && n <= |attempts|
    ensures |calls| == n
  {
    if n == 0 then []
    else Queries(attempts, len, n - 1) + [FindClassByCode(CodeOf(attempts[n - 1].draws))]
  }

  /** Codes already in use are skipped: after a run of successful queries that all hit a
      used code, the search goes on exactly as it would from the next attempt. */
  lemma {:induction false} SearchSkipsUsedCodes(docs: map<Path, Doc>, attempts: seq<Attempt>, len: nat, k: nat)
    requires ValidAttempts(attempts, len)
    requires k <= |attempts|
    requires forall j :: 0 <= j < k ==> attempts[j].queryOk && CodeInUse(docs, CodeOf(attempts[j].draws))
    ensures ValidAttempts(attempts[k..], len)
    ensures SearchCode(docs, attempts, len) == SearchCode(docs, attempts[k..], len)
    ensures Tries(docs, attempts, len) == k + Tries(docs, attempts[k..], len)
    decreases k
  {
    if k > 0 {
      var rest := attempts[1..];
      forall j | 0 <= j < k - 1
        ensures rest[j].queryOk && CodeInUse(docs, CodeOf(rest[j].draws))
      {
        assert rest[j] == attempts[j + 1];
      }
      SearchSkipsUsedCodes(docs, rest, len, k - 1);
      assert rest[k - 1..] == attempts[k..];
    }
  }

  /** The code chosen is the first drawn code not in use, provided every query before it went through. */
  lemma {:induction false} SearchTakesFirstFreeCode(docs: map<Path, Doc>, attempts: seq<Attempt>, len: nat, k: nat)
    requires ValidAttempts(attempts, len)
    requires k < |attempts|
    requires forall j :: 0 <= j < k ==> attempts[j].queryOk && CodeInUse(docs, CodeOf(attempts[j].draws))
    requires attempts[k].queryOk && !CodeInUse(docs, CodeOf(attempts[k].draws))
    ensures SearchCode(docs, attempts, len) == Free(CodeOf(attempts[k].draws))
    ensures Tries(docs, attempts, len) == k + 1
  {
    SearchSkipsUsedCodes(docs, attempts, len, k);
    assert attempts[k..][0] == attempts[k];
  }

  /** The pass after a run of used codes decides the search when its query faults or its code is free. */
  lemma SearchStep(docs: map<Path, Doc>, attempts: seq<Attempt>, len: nat, i: nat)
    requires ValidAttempts(attempts, len) && i < |attempts|
    requires forall j :: 0 <= j < i ==> attempts[j].queryOk && CodeInUse(docs, CodeOf(attempts[j].draws))
    ensures !attempts[i].queryOk ==> SearchCode(docs, attempts, len) == QueryFaulted && Tries(docs, attempts, len) == i + 1
    ensures attempts[i].queryOk && !CodeInUse(docs, CodeOf(attempts[i].draws)) ==>
              SearchCode(docs, attempts, len) == Free(CodeOf(attempts[i].draws)) && Tries(docs, attempts, len) == i + 1
  {
    SearchSkipsUsedCodes(docs, attempts, len, i);
    assert attempts[i..][0] == attempts[i];
  }

  // ---------------------------------------------------------------- rows

  /** One entry of the class list. */
  datatype ClassRow = ClassRow(id: string, name: string, code: string, createdAtSeconds: int)

  /** A string field read with a default: `Some(default)` when absent, `None` when
      `GetValue<string>` would throw on a value of another type. */
  function StrOr(d: Doc, field: string, default: string): (r: Option<string>)
    ensures field !in d ==> r == Some(default)
    ensures field in d ==> (r.Some? <==> d[field].Str?) && (r.Some? ==> r.value == d[field].s)
  {
    if field !in d then Some(default) else if d[field].Str? then Some(d[field].s) else None
  }

  /** The row for a listed document; `None` when a field has the wrong type and the SDK throws. */
  function RowOf(docId: string, d: Doc): (r: Option<ClassRow>)
    ensures r.Some? <==> (&& StrOr(d, "id", docId).Some? && StrOr(d, "name", "(Unnamed)").Some?
                          && StrOr(d, "code", "—").Some? && ("createdAt" in d ==> d["createdAt"].Stamp?))
  {
    var id, name, code := StrOr(d, "id", docId), StrOr(d, "name", "(Unnamed)"), StrOr(d, "code", "—");
    if id.None? || name.None? || code.None? then None
    else if "createdAt" !in d then Some(ClassRow(id.value, name.value, code.value, 0))
    else if d["createdAt"].Stamp? then Some(ClassRow(id.value, name.value, code.value, d["createdAt"].seconds))
    else None
  }

  /** Absent fields default: id to the document id, name to "(Unnamed)", code to "—", time to 0. */
  lemma RowDefaults(docId: string, d: Doc)
    requires "id" !in d && "name" !in d && "code" !in d && "createdAt" !in d
    ensures RowOf(docId, d) == Some(ClassRow(docId, "(Unnamed)", "—", 0))
  {
  }

  /** Present fields win over the defaults. */
  lemma RowFromFields(docId: string, d: Doc, id: string, name: string, code: string, t: int)
    requires "id" in d && d["id"] == Str(id) && "name" in d && d["name"] == Str(name)
    requires "code" in d && d["code"] == Str(code) && "createdAt" in d && d["createdAt"] == Stamp(t)
    ensures RowOf(docId, d) == Some(ClassRow(id, name, code, t))
  {
  }

  /** The rows of a listing, up to the first document whose row cannot be read. */
  function RowsOf(snap: seq<(string, Doc)>): (rows: seq<ClassRow>)
    ensures |rows| <= |snap|
  {
    if snap == [] then []
    else match RowOf(snap[0].0, snap[0].1)
      case None => []
      case Some(row) => [row] + RowsOf(snap[1..])
  }

  /** Row k is read from document k, and the rows stop only at a document that cannot be read. */
  lemma {:induction false} RowsOfReadsInOrder(snap: seq<(string, Doc)>)
    ensures var rows := RowsOf(snap);
            && (forall k :: 0 <= k < |rows| ==> RowOf(snap[k].0, snap[k].1) == Some(rows[k]))
            && (|rows| < |snap| ==> RowOf(snap[|rows|].0, snap[|rows|].1).None?)
  {
    if snap != [] && RowOf(snap[0].0, snap[0].1).Some? {
      RowsOfReadsInOrder(snap[1..]);
      var rows := RowsOf(snap);
      forall k | 1 <= k < |rows| ensures RowOf(snap[k].0, snap[k].1) == Some(rows[k]) {
        assert snap[k] == snap[1..][k - 1];
      }
    }
  }

  // ------------------------------------------------------------- sorting

  /** Newest first: `createdAtSeconds` never increases along the list. */
  predicate NewestFirst(rows: seq<ClassRow>) {
    forall i, j :: 0 <= i < j < |rows| ==> rows[i].createdAtSeconds >= rows[j].createdAtSeconds
  }

  /** A row no older than the head of a newest-first list can go in front of it. */
  lemma ConsNewestFirst(x: ClassRow, rows: seq<ClassRow>)
    requires NewestFirst(rows) && (rows == [] || rows[0].createdAtSeconds <= x.createdAtSeconds)
    ensures NewestFirst([x] + rows)
  {
    forall i, j | 0 <= i < j < |rows| + 1
      ensures ([x] + rows)[i].createdAtSeconds >= ([x] + rows)[j].createdAtSeconds
    {
      if i == 0 {
        assert rows[0].createdAtSeconds >= rows[j - 1].createdAtSeconds || j == 1;
      }
    }
  }

  lemma TailNewestFirst(rows: seq<ClassRow>)
    requires NewestFirst(rows) && rows != []
    ensures NewestFirst(rows[1..])
  {
    forall i, j | 0 <= i < j < |rows| - 1
      ensures rows[1..][i].createdAtSeconds >= rows[1..][j].createdAtSeconds
    {
      assert rows[1..][i] == rows[i + 1] && rows[1..][j] == rows[j + 1];
    }
  }

  function Insert(sorted: seq<ClassRow>, row: ClassRow): (r: seq<ClassRow>)
    requires NewestFirst(sorted)
    ensures NewestFirst(r)
    ensures multiset(r) == multiset(sorted) + multiset{row}
    ensures |r| == |sorted| + 1
    ensures r[0] == row || (|sorted| > 0 && r[0] == sorted[0])
    decreases |sorted|
  {
    if sorted == [] || sorted[0].createdAtSeconds <= row.createdAtSeconds then
      ConsNewestFirst(row, sorted);
      [row] + sorted
    else
      TailNewestFirst(sorted);
      var tail := Insert(sorted[1..], row);
      assert sorted == [sorted[0]] + sorted[1..];
      ConsNewestFirst(sorted[0], tail);
      [sorted[0]] + tail
  }

  /** `_all.Sort` by `b.createdAtSeconds.CompareTo(a.createdAtSeconds)`: newest first,
      a permutation of the rows; equal times may come in any order. */
  function SortNewestFirst(rows: seq<ClassRow>): (sorted: seq<ClassRow>)
    ensures NewestFirst(sorted)
    ensures multiset(sorted) == multiset(rows)
    decreases |rows|
  {
    if rows == [] then []
    else
      assert rows == rows[..|rows| - 1] + [rows[|rows| - 1]];
      Insert(SortNewestFirst(rows[..|rows| - 1]), rows[|rows| - 1])
  }

  // ---------------------------------------------------------- pagination

  /** `Mathf.CeilToInt(n / (float)size)` on whole numbers. */
  function CeilDiv(n: nat, size: int): (c: nat)
    requires size > 0
    ensures n <= c * size
    ensures n > 0 ==> (c - 1) * size < n
    ensures n == 0 ==> c == 0
  {
    var c := (n + size - 1) / size;
    var r := (n + size - 1) % size;
    assert n + size - 1 == c * size + r;
    assert (c - 1) * size == c * size - size;
    c
  }

  /** `Mathf.Max(1, CeilToInt(n / (float)pageSize))`: at least one page, and just enough pages. */
  function PageCount(n: nat, size: int): (c: nat)
    requires size > 0
    ensures c >= 1 && n <= c * size
    ensures n == 0 ==> c == 1
    ensures n > 0 ==> (c - 1) * size < n
  {
    var d := CeilDiv(n, size);
    if d < 1 then 1 else d
  }

  /** `Mathf.Clamp(value, min, max)`. */
  function Clamp(value: int, min: int, max: int): int {
    if value < min then min else if value > max then max else value
  }

  /** The page index after clamping to `[0, pageCount - 1]`. */
  function ClampPage(p: int, n: nat, size: int): (q: int)
    requires size > 0
    ensures 0 <= q < PageCount(n, size)
    ensures 0 <= p < PageCount(n, size) ==> q == p
    ensures p < 0 ==> q == 0
    ensures p >= PageCount(n, size) ==> q == PageCount(n, size) - 1
  {
    Clamp(p, 0, PageCount(n, size) - 1)
  }

  /** `Mathf.Min(start + pageSize, n)`: one past the last row of page `p`. */
  function PageEnd(p: int, n: nat, size: int): int {
    if p * size + size < n then p * size + size else n
  }

  lemma MulMono(a: int, b: int, size: int)
    requires 0 <= a <= b && size > 0
    ensures a * size <= b * size
  {
  }

  /** A page in range is a window of at most `size` rows inside the list,
      and it is empty only when the list is. */
  lemma {:induction false} PageWindow(n: nat, size: int, p: int)
    requires size > 0 && 0 <= p < PageCount(n, size)
    ensures 0 <= p * size <= PageEnd(p, n, size) <= n
    ensures PageEnd(p, n, size) - p * size <= size
    ensures n > 0 ==> p * size < PageEnd(p, n, size)
  {
    MulMono(p, PageCount(n, size) - 1, size);
  }

  /** Pages partition the list: row `i` is on page `i / size` and on no other page. */
  lemma {:induction false} RowOnExactlyOnePage(n: nat, size: int, i: nat, q: int)
    requires size > 0 && i < n
    ensures 0 <= i / size < PageCount(n, size)
    ensures (i / size) * size <= i < PageEnd(i / size, n, size)
    ensures 0 <= q && q * size <= i < PageEnd(q, n, size) ==> q == i / size
  {
    var p := i / size;
    DivBounds(i, size);
    var c := PageCount(n, size);
    if p >= c {
      MulMono(c, p, size);
      assert false;
    }
    if 0 <= q && q * size <= i < PageEnd(q, n, size) {
      OnlyOnePage(size, i, p, q);
    }
  }

  lemma DivBounds(i: nat, size: int)
    requires size > 0
    ensures (i / size) * size <= i < (i / size) * size + size
  {
    assert (i / size) * size + i % size == i;
  }

  lemma OnlyOnePage(size: int, i: nat, p: int, q: int)
    requires size > 0 && 0 <= p && 0 <= q
    requires p * size <= i < p * size + size
    requires q * size <= i < q * size + size
    ensures p == q
  {
    if q < p {
      MulMono(q + 1, p, size);
    } else if p < q {
      MulMono(p + 1, q, size);
    }
  }

  /** One rendered card: the row it shows (and its click handler captures), its index
      in the list, and whether it is tinted as selected. */
  datatype Tile = Tile(row: ClassRow, index: nat, selected: bool) {
    function NameText(): string { row.name }
    function CodeText(): string { "Code: " + row.code }
  }

  /** What one render leaves on screen. */
  datatype PageView = PageView(tiles: seq<Tile>, emptyShown: bool, prevEnabled: bool,
                               nextEnabled: bool, pageLabel: string)

  function TileAt(all: seq<ClassRow>, i: nat, sel: Option<string>): Tile
    requires i < |all|
  {
    Tile(all[i], i, Some(all[i].id) == sel)
  }

  /** The view `RenderPage` builds for page `p` of `all` with selection `sel`. */
  function PageOf(all: seq<ClassRow>, p: int, size: int, sel: Option<string>): PageView
    requires size > 0 && 0 <= p < PageCount(|all|, size)
  {
    PageWindow(|all|, size, p);
    var start, end := p * size, PageEnd(p, |all|, size);
    var count := PageCount(|all|, size);
    PageView(seq(end - start, k requires 0 <= k < end - start => TileAt(all, start + k, sel)),
             |all| == 0, p > 0, p < count - 1, NatToString(p + 1) + "/" + NatToString(count))
  }

  lemma PageOfTiles(all: seq<ClassRow>, p: int, size: int, sel: Option<string>, tiles: seq<Tile>)
    requires size > 0 && 0 <= p < PageCount(|all|, size)
    requires 0 <= p * size <= PageEnd(p, |all|, size) <= |all|
    requires |tiles| == PageEnd(p, |all|, size) - p * size
    requires forall k :: 0 <= k < |tiles| ==> tiles[k] == TileAt(all, p * size + k, sel)
    ensures PageOf(all, p, size, sel).tiles == tiles
  {
  }

  /** The tiles of a page are exactly the rows `all[start .. min(start + size, n))`, in order,
      each tinted exactly when its id is the selected one. */
  lemma {:induction false} PageShowsItsRows(all: seq<ClassRow>, p: int, size: int, sel: Option<string>)
    requires size > 0 && 0 <= p < PageCount(|all|, size)
    ensures var tiles := PageOf(all, p, size, sel).tiles;
      && 0 <= p * size <= PageEnd(p, |all|, size) <= |all|
      && |tiles| <= size
      && seq(|tiles|, k requires 0 <= k < |tiles| => tiles[k].row) == all[p * size..PageEnd(p, |all|, size)]
      && (forall k :: 0 <= k < |tiles| ==> tiles[k].index == p * size + k)
      && (forall k :: 0 <= k < |tiles| ==> (tiles[k].selected <==> sel == Some(tiles[k].row.id)))
  {
    PageWindow(|all|, size, p);
    var start, end := p * size, PageEnd(p, |all|, size);
    var tiles := PageOf(all, p, size, sel).tiles;
    assert tiles == seq(end - start, k requires 0 <= k < end - start => TileAt(all, start + k, sel));
    assert forall k :: 0 <= k < |tiles| ==> tiles[k] == TileAt(all, start + k, sel);
  }

  /** Prev is enabled off the first page, Next before the last, the empty graphic
      shows for an empty list, and the page label reads "{page}/{pages}". */
  lemma PagerState(all: seq<ClassRow>, p: int, size: int, sel: Option<string>)
    requires size > 0 && 0 <= p < PageCount(|all|, size)
    ensures var v := PageOf(all, p, size, sel);
      && (v.prevEnabled <==> p > 0)
      && (v.nextEnabled <==> p < PageCount(|all|, size) - 1)
      && (v.emptyShown <==> all == [])
      && (all == [] ==> v.tiles == [] && v.pageLabel == "1/1" && !v.prevEnabled && !v.nextEnabled)
  {
    if all == [] {
      assert NatToString(1) == "1";
    }
  }

  // ----------------------------------------------------------- selection

  /** `!string.IsNullOrEmpty(_selectedClassId)`. */
  predicate HasSelection(sel: Option<string>) {
    !IsNullOrEmpty(sel)
  }

  /** `_all.Exists(r => r.id == id)`. */
  predicate HasRow(all: seq<ClassRow>, id: string) {
    exists k :: 0 <= k < |all| && all[k].id == id
  }

  /** `_all.Find(r => r.id == id)`: the first row with that id. */
  function FindRow(all: seq<ClassRow>, id: string): (r: Option<ClassRow>)
    ensures r.Some? <==> HasRow(all, id)
    ensures r.Some? ==> exists k :: 0 <= k < |all| && all[k] == r.value && r.value.id == id
                                    && forall j :: 0 <= j < k ==> all[j].id != id
  {
    if all == [] then None
    else if all[0].id == id then Some(all[0])
    else
      var r := FindRow(all[1..], id);
      assert HasRow(all[1..], id) ==> HasRow(all, id) by {
        if HasRow(all[1..], id) {
          var k :| 0 <= k < |all| - 1 && all[1..][k].id == id;
          assert all[k + 1].id == id;
        }
      }
      assert HasRow(all, id) ==> HasRow(all[1..], id) by {
        if HasRow(all, id) {
          var k :| 0 <= k < |all| && all[k].id == id;
          assert all[1..][k - 1].id == id;
        }
      }
      if r.Some? then
        var k :| 0 <= k < |all| - 1 && all[1..][k] == r.value && r.value.id == id
                 && forall j :: 0 <= j < k ==> all[1..][j].id != id;
        assert all[k + 1] == r.value;
        assert forall j :: 0 <= j < k + 1 ==> all[j].id != id by {
          forall j | 0 <= j < k + 1 ensures all[j].id != id {
            if j > 0 { assert all[j] == all[1..][j - 1]; }
          }
        }
        r
      else r
  }

  // ------------------------------------------------------------- creating

  /** classes/{id}: id, name, code, owner, and equal creation and update times. */
  function ClassData(id: string, name: string, code: string, owner: string, now: int): Doc {
    map["id" := Str(id), "name" := Str(name), "code" := Str(code), "ownerUid" := Str(owner),
        "createdAt" := Stamp(now), "updatedAt" := Stamp(now)]
  }

  /** users/{owner}/classes/{id}: the listing copy of id, name, code and creation time. */
  function IndexData(id: string, name: string, code: string, now: int): Doc {
    map["id" := Str(id), "name" := Str(name), "code" := Str(code), "createdAt" := Stamp(now)]
  }

  /** The two documents of a new class agree on id, name, code and creation time; the global one
      records the owner and equal times; the index reads back as the row of the new class; and
      once written the code is in use, so no later creation draws it again. */
  lemma CreatedPairAgrees(docs: map<Path, Doc>, id: string, name: string, code: string, owner: string, now: int)
    ensures var g, x := ClassData(id, name, code, owner, now), IndexData(id, name, code, now);
      && (forall f :: f in x ==> f in g && g[f] == x[f])
      && g["ownerUid"] == Str(owner) && g["createdAt"] == g["updatedAt"]
      && RowOf(id, x) == Some(ClassRow(id, name, code, now))
      && CodeInUse(docs[ClassDoc(id) := g], code)
  {
    var g := ClassData(id, name, code, owner, now);
    assert docs[ClassDoc(id) := g][ClassDoc(id)]["code"] == Str(code);
  }

  // --------------------------------------------------------------- loading

  /** The list-related state of the manager, as one value. */
  datatype ListState = ListState(all: seq<ClassRow>, pageIndex: int, selectedClassId: Option<string>,
                                 selectedIndex: int, createShown: bool, editShown: bool, view: PageView)

  /** The selection survives a reload exactly when some row still has its id. */
  predicate SelectionKept(sel: Option<string>, all: seq<ClassRow>) {
    !HasSelection(sel) || HasRow(all, sel.value)
  }

  /** What the rest of a load does with a complete set of rows: sort newest first, keep
      the selection only if its row is still there, set the buttons, clamp and render. */
  ghost predicate Applied(rows: seq<ClassRow>, size: int, before: ListState, after: ListState)
    requires size > 0
  {
    var kept := SelectionKept(before.selectedClassId, after.all);
    && NewestFirst(after.all) && multiset(after.all) == multiset(rows)
    && after.selectedClassId == (if kept then before.selectedClassId else None)
    && after.selectedIndex == (if kept then before.selectedIndex else -1)
    && after.createShown == !HasSelection(after.selectedClassId)
    && after.editShown == HasSelection(after.selectedClassId)
    && after.pageIndex == ClampPage(before.pageIndex, |after.all|, size)
    && after.view == PageOf(after.all, after.pageIndex, size, after.selectedClassId)
  }

  /** What a load that received listing `snap` leaves behind.  When a document's row
      cannot be read the SDK throws inside the loop: `_all` holds the rows read so far
      and nothing else has changed. */
  ghost predicate LoadedFrom(snap: seq<(string, Doc)>, size: int, before: ListState, after: ListState)
    requires size > 0
  {
    var rows := RowsOf(snap);
    if |rows| < |snap| then after == before.(all := rows) else Applied(rows, size, before, after)
  }

  /** A load of the teacher's classes: some listing of users/{owner}/classes was received. */
  ghost predicate Reloaded(docs: map<Path, Doc>, owner: string, size: int, before: ListState, after: ListState)
    requires size > 0
  {
    exists snap :: IsListing(docs, owner, snap) && LoadedFrom(snap, size, before, after)
  }

  /** After a completed load the list holds each listed class once, newest first, and a
      surviving selection names a listed row. */
  lemma {:induction false} LoadKeepsSelectionValid(snap: seq<(string, Doc)>, size: int, before: ListState, after: ListState)
    requires size > 0 && LoadedFrom(snap, size, before, after) && |RowsOf(snap)| == |snap|
    ensures |after.all| == |snap|
    ensures HasSelection(after.selectedClassId) ==> HasRow(after.all, after.selectedClassId.value)
    ensures after.selectedClassId == before.selectedClassId <==> SelectionKept(before.selectedClassId, after.all)
    ensures forall k :: 0 <= k < |snap| ==>
              RowOf(snap[k].0, snap[k].1).Some? && RowOf(snap[k].0, snap[k].1).value in multiset(after.all)
  {
    RowsOfReadsInOrder(snap);
    assert |after.all| == |multiset(after.all)| == |multiset(RowsOf(snap))| == |snap|;
    forall k | 0 <= k < |snap|
      ensures RowOf(snap[k].0, snap[k].1).Some? && RowOf(snap[k].0, snap[k].1).value in multiset(after.all)
    {
      assert RowsOf(snap)[k] in multiset(RowsOf(snap));
    }
  }

  /** One document further into the listing: a row that cannot be read ends the rows there. */
  lemma RowsOfStep(snap: seq<(string, Doc)>, i: nat)
    requires i < |snap|
    ensures var row := RowOf(snap[i].0, snap[i].1);
            RowsOf(snap[i..]) == if row.None? then [] else [row.value] + RowsOf(snap[i + 1..])
  {
    assert snap[i..][0] == snap[i] && snap[i..][1..] == snap[i + 1..];
  }

  /** The `foreach` over the query snapshot, building one row per document. */
  method ReadRows(snap: seq<(string, Doc)>) returns (rows: seq<ClassRow>)
    ensures rows == RowsOf(snap)
  {
    rows := [];
    var i := 0;
    assert snap[0..] == snap;
    while i < |snap|
      invariant 0 <= i <= |snap| && |rows| == i
      invariant RowsOf(snap) == rows + RowsOf(snap[i..])
    {
      var row := RowOf(snap[i].0, snap[i].1);
      RowsOfStep(snap, i);
      if row.None? {
        assert rows + [] == rows;
        return;
      }
      assert rows + ([row.value] + RowsOf(snap[i + 1..])) == (rows + [row.value]) + RowsOf(snap[i + 1..]);
      rows := rows + [row.value];
      i := i + 1;
    }
    assert rows + RowsOf([]) == rows;
  }

  class TeacherClassManager {
    const db: Backend
    const selection: ClassSelection
    const user: Option<string>   // auth.CurrentUser's uid when someone is signed in
    const pageSize: int
    const codeLength: nat
    var all: seq<ClassRow>
    var pageIndex: int
    var selectedClassId: Option<string>
    var selectedIndex: int
    var createShown: bool        // createBtn active
    var editShown: bool          // editBtn active
    var view: PageView
    var classNameInput: string
    var loadedScene: Option<string>

    constructor (db: Backend, selection: ClassSelection, user: Option<string>, pageSize: int, codeLength: nat)
      requires pageSize > 0
      ensures this.db == db && this.selection == selection && this.user == user
      ensures this.pageSize == pageSize && this.codeLength == codeLength
      ensures all == [] && pageIndex == 0 && selectedClassId.None? && selectedIndex == -1
      ensures classNameInput == "" && loadedScene.None?
      ensures Valid()
    {
      this.db, this.selection, this.user := db, selection, user;
      this.pageSize, this.codeLength := pageSize, codeLength;
      all, pageIndex, selectedClassId, selectedIndex := [], 0, None, -1;
      createShown, editShown := true, false;
      view := PageView([], true, false, false, "");
      classNameInput, loadedScene := "", None;
    }

    predicate Valid()
      reads this
    {
      pageSize > 0
    }

    function State(): ListState
      reads this
    {
      ListState(all, pageIndex, selectedClassId, selectedIndex, createShown, editShown, view)
    }

    /** `GetSelectedRow`: the first row with the selected id; `None` stands for `default(ClassRow)`. */
    function SelectedRow(): (r: Option<ClassRow>)
      reads this
      ensures r.Some? <==> HasSelection(selectedClassId) && HasRow(all, selectedClassId.value)
      ensures r.Some? ==> r.value.id == selectedClassId.value && r.value in all
    {
      if !HasSelection(selectedClassId) then None else FindRow(all, selectedClassId.value)
    }

    /** Clamps the page index and rebuilds the page's tiles. */
    method RenderPage()
      requires Valid()
      modifies this
      ensures Valid()
      ensures pageIndex == ClampPage(old(pageIndex), |all|, pageSize)
      ensures State() == old(State()).(pageIndex := pageIndex, view := PageOf(all, pageIndex, pageSize, selectedClassId))
      ensures classNameInput == old(classNameInput) && loadedScene == old(loadedScene)
    {
      var count := PageCount(|all|, pageSize);
      pageIndex := Clamp(pageIndex, 0, count - 1);
      PageWindow(|all|, pageSize, pageIndex);
      var start := pageIndex * pageSize;
      var end := if start + pageSize < |all| then start + pageSize else |all|;
      var tiles: seq<Tile> := [];
      for i := start to end
        invariant |tiles| == i - start
        invariant forall k :: 0 <= k < |tiles| ==> tiles[k] == TileAt(all, start + k, selectedClassId)
      {
        tiles := tiles + [Tile(all[i], i, Some(all[i].id) == selectedClassId)];
      }
      view := PageView(tiles, |all| == 0, pageIndex > 0, pageIndex < count - 1,
                       NatToString(pageIndex + 1) + "/" + NatToString(count));
      PageOfTiles(all, pageIndex, pageSize, selectedClassId, tiles);
    }

    method NextPage()
      requires Valid()
      modifies this
      ensures Valid()
      ensures pageIndex == ClampPage(old(pageIndex) + 1, |all|, pageSize)
      ensures State() == old(State()).(pageIndex := pageIndex, view := PageOf(all, pageIndex, pageSize, selectedClassId))
      ensures classNameInput == old(classNameInput) && loadedScene == old(loadedScene)
    {
      pageIndex := pageIndex + 1;
      RenderPage();
    }

    method PrevPage()
      requires Valid()
      modifies this
      ensures Valid()
      ensures pageIndex == ClampPage(if old(pageIndex) - 1 < 0 then 0 else old(pageIndex) - 1, |all|, pageSize)
      ensures State() == old(State()).(pageIndex := pageIndex, view := PageOf(all, pageIndex, pageSize, selectedClassId))
      ensures classNameInput == old(classNameInput) && loadedScene == old(loadedScene)
    {
      pageIndex := if pageIndex - 1 < 0 then 0 else pageIndex - 1;
      RenderPage();
    }
  
    /** Applies a complete set of rows: the part of `LoadClasses` after its loop. */
    method ApplyRows(rows: seq<ClassRow>)
      requires Valid()
      modifies this
      ensures Valid()
      ensures Applied(rows, pageSize, old(State()), State())
      ensures classNameInput == old(classNameInput) && loadedScene == old(loadedScene)
    {
      SortAndKeepSelection(rows);
      pageIndex := Clamp(pageIndex, 0, PageCount(|all|, pageSize) - 1);
      RenderPage();
    }

    /** The sort, the selection check and the button reset of `LoadClasses`. */
    method SortAndKeepSelection(rows: seq<ClassRow>)
      modifies this
      ensures all == SortNewestFirst(rows)
      ensures var kept := SelectionKept(old(selectedClassId), all);
              && selectedClassId == (if kept then old(selectedClassId) else None)
              && selectedIndex == (if kept then old(selectedIndex) else -1)
      ensures createShown == !HasSelection(selectedClassId) && editShown == HasSelection(selectedClassId)
      ensures pageIndex == old(pageIndex) && view == old(view)
      ensures classNameInput == old(classNameInput) && loadedScene == old(loadedScene)
    {
      all := SortNewestFirst(rows);
      var kept := !HasSelection(selectedClassId) || HasRow(all, selectedClassId.value);
      if !kept {
        selectedClassId, selectedIndex := None, -1;
      }
      createShown, editShown := !HasSelection(selectedClassId), HasSelection(selectedClassId);
    }

    /** Reads users/{uid}/classes into the list and renders it. */
    method LoadClasses(ok: bool)
      requires Valid()
      modifies this, db
      ensures Valid()
      ensures db.docs == old(db.docs)
      ensures classNameInput == old(classNameInput) && loadedScene == old(loadedScene)
      ensures user.None? ==> db.log == old(db.log) && State() == old(State())
      ensures user.Some? ==> db.log == old(db.log) + [ListTeacherClasses(user.value)]
      ensures user.Some? && !ok ==> State() == old(State())
      ensures user.Some? && ok ==> Reloaded(old(db.docs), user.value, pageSize, old(State()), State())
    {
      if user.None? {
        return;
      }
      var snap := db.ListClasses(user.value, ok);
      if snap.None? {
        return;
      }
      var rows := ReadRows(snap.value);
      if |rows| < |snap.value| {
        all := rows;  // the SDK throws inside the loop
      } else {
        ApplyRows(rows);
      }
      assert LoadedFrom(snap.value, pageSize, old(State()), State());
    }

    /** A click on a rendered card: select its row, publish it to `ClassSelection`,
        show Edit instead of Create, and re-render. */
    method ClickTile(k: nat)
      requires Valid() && k < |view.tiles|
      modifies this, selection
      ensures Valid()
      ensures var t := old(view.tiles[k]);
        && selectedClassId == Some(t.row.id) && selectedIndex == t.index
        && selection.currentClassId == Some(t.row.id)
        && selection.currentClassName == Some(t.row.name)
        && selection.currentClassCode == Some(t.row.code)
      ensures !createShown && editShown
      ensures all == old(all) && pageIndex == ClampPage(old(pageIndex), |all|, pageSize)
      ensures view == PageOf(all, pageIndex, pageSize, selectedClassId)
      ensures classNameInput == old(classNameInput) && loadedScene == old(loadedScene)
    {
      var t := view.tiles[k];
      selectedClassId, selectedIndex := Some(t.row.id), t.index;
      selection.currentClassId := Some(t.row.id);
      selection.currentClassName := Some(t.row.name);
      selection.currentClassCode := Some(t.row.code);
      createShown, editShown := false, true;
      RenderPage();
    }

    /** Opens the selected class: publishes its row (or nulls when none is found) and loads "TeacherClass". */
    method JoinSelected()
      modifies this, selection
      ensures State() == old(State()) && classNameInput == old(classNameInput)
      ensures !HasSelection(selectedClassId) ==>
                && loadedScene == old(loadedScene)
                && selection.currentClassId == old(selection.currentClassId)
                && selection.currentClassName == old(selection.currentClassName)
                && selection.currentClassCode == old(selection.currentClassCode)
      ensures HasSelection(selectedClassId) ==>
                var r := SelectedRow();
                && loadedScene == Some("TeacherClass")
                && selection.currentClassId == (if r.Some? then Some(r.value.id) else None)
                && selection.currentClassName == (if r.Some? then Some(r.value.name) else None)
                && selection.currentClassCode == (if r.Some? then Some(r.value.code) else None)
    {
      if !HasSelection(selectedClassId) {
        return;
      }
      var r := SelectedRow();
      selection.currentClassId := if r.Some? then Some(r.value.id) else None;
      selection.currentClassName := if r.Some? then Some(r.value.name) else None;
      selection.currentClassCode := if r.Some? then Some(r.value.code) else None;
      loadedScene := Some("TeacherClass");
    }

    /** `GenerateCode(len)`: one alphabet character per draw. */
    method GenerateCode(len: nat, draws: seq<nat>) returns (code: string)
      requires |draws| == len && ValidDraws(draws)
      ensures code == CodeOf(draws)
    {
      code := "";
      for i := 0 to len
        invariant |code| == i
        invariant forall k :: 0 <= k < i ==> code[k] == Alphabet[draws[k]]
      {
        code := code + [Alphabet[draws[i]]];
      }
    }

    /** One pass of the uniqueness loop: draw a code and ask whether a class has it. */
    method TryAttempt(a: Attempt) returns (found: Option<bool>, code: string)
      requires |a.draws| == codeLength && ValidDraws(a.draws)
      modifies db
      ensures code == CodeOf(a.draws)
      ensures db.docs == old(db.docs) && db.log == old(db.log) + [FindClassByCode(code)]
      ensures found == if a.queryOk then Some(CodeInUse(old(db.docs), code)) else None
    {
      code := GenerateCode(codeLength, a.draws);
      found := db.FindByCode(code, a.queryOk);
    }

    /** One pass of the loop after a run of used codes: it ends the search when the query
        faults or the code is free, and otherwise records another used code. */
    method SearchPass(attempts: seq<Attempt>, i: nat) returns (outcome: Option<CodeSearch>)
      requires ValidAttempts(attempts, codeLength) && i < |attempts|
      requires forall j :: 0 <= j < i ==> attempts[j].queryOk && CodeInUse(db.docs, CodeOf(attempts[j].draws))
      modifies db
      ensures db.docs == old(db.docs)
      ensures db.log == old(db.log) + [FindClassByCode(CodeOf(attempts[i].draws))]
      ensures outcome.Some? ==> outcome.value == SearchCode(db.docs, attempts, codeLength)
                                && Tries(db.docs, attempts, codeLength) == i + 1
      ensures outcome.None? ==> attempts[i].queryOk && CodeInUse(db.docs, CodeOf(attempts[i].draws))
    {
      SearchStep(db.docs, attempts, codeLength, i);
      var found, code := TryAttempt(attempts[i]);
      if found.None? {
        return Some(QueryFaulted);
      }
      outcome := if found.value then None else Some(Free(code));
    }

    /** The `while (!unique)` loop of class creation, one attempt per pass. */
    method FindUniqueCode(attempts: seq<Attempt>) returns (r: CodeSearch)
      requires ValidAttempts(attempts, codeLength)
      modifies db
      ensures r == SearchCode(old(db.docs), attempts, codeLength)
      ensures db.docs == old(db.docs)
      ensures db.log == old(db.log) + Queries(attempts, codeLength, Tries(old(db.docs), attempts, codeLength))
    {
      ghost var docs0 := db.docs;
      var i := 0;
      while i < |attempts|
        invariant 0 <= i <= |attempts|
        invariant db.docs == docs0
        invariant db.log == old(db.log) + Queries(attempts, codeLength, i)
        invariant forall j :: 0 <= j < i ==> attempts[j].queryOk && CodeInUse(docs0, CodeOf(attempts[j].draws))
      {
        var outcome := SearchPass(attempts, i);
        if outcome.Some? {
          return outcome.value;
        }
        i := i + 1;
      }
      SearchSkipsUsedCodes(docs0, attempts, codeLength, i);
      assert attempts[i..] == [];
      r := OutOfAttempts;
    }
  
    /** Writes classes/{id} and then, only if that went through, users/{uid}/classes/{id}. */
    method WriteClass(uid: string, id: string, name: string, code: string, now: int, classOk: bool, indexOk: bool)
      returns (written: bool)
      modifies db
      ensures written <==> classOk && indexOk
      ensures db.docs == AfterSet(AfterSet(old(db.docs), ClassDoc(id), ClassData(id, name, code, uid, now), classOk),
                                  TeacherClassDoc(uid, id), IndexData(id, name, code, now), classOk && indexOk)
      ensures db.log == old(db.log) + [Call.Set(ClassDoc(id))]
                        + (if classOk then [Call.Set(TeacherClassDoc(uid, id))] else [])
    {
      var faulted := db.Set(ClassDoc(id), ClassData(id, name, code, uid, now), classOk);
      if faulted {
        assert old(db.log) + [Call.Set(ClassDoc(id))] + [] == db.log;
        return false;
      }
      faulted := db.Set(TeacherClassDoc(uid, id), IndexData(id, name, code, now), indexOk);
      written := !faulted;
    }

    /** `CreateClassRoutine`: a trimmed non-empty name and a signed-in user are required; a
        free code is searched for; the class and its index are written; the input is cleared
        and the list reloaded.  `newId` is the id `Document()` generates. */
    method CreateClassRoutine(classNameRaw: Option<string>, attempts: seq<Attempt>, newId: string, now: int,
                              classOk: bool, indexOk: bool, loadOk: bool)
      requires Valid() && ValidAttempts(attempts, codeLength)
      modifies this, db
      ensures Valid() && loadedScene == old(loadedScene)
      ensures var name := Trim(classNameRaw.GetOr(""));
        if user.None? || name == "" then
          db.docs == old(db.docs) && db.log == old(db.log) && State() == old(State())
          && classNameInput == old(classNameInput)
        else
          var search := SearchCode(old(db.docs), attempts, codeLength);
          var queried := old(db.log) + Queries(attempts, codeLength, Tries(old(db.docs), attempts, codeLength));
          if !search.Free? then
            db.docs == old(db.docs) && db.log == queried && State() == old(State())
            && classNameInput == old(classNameInput)
          else
            var docs' := AfterSet(AfterSet(old(db.docs), ClassDoc(newId), ClassData(newId, name, search.code, user.value, now), classOk),
                                  TeacherClassDoc(user.value, newId), IndexData(newId, name, search.code, now), classOk && indexOk);
            var written := old(db.log) + Queries(attempts, codeLength, Tries(old(db.docs), attempts, codeLength))
                           + [Call.Set(ClassDoc(newId))] + (if classOk then [Call.Set(TeacherClassDoc(user.value, newId))] else []);
            && db.docs == docs'
            && (!(classOk && indexOk) ==> db.log == written && State() == old(State()) && classNameInput == old(classNameInput))
            && (classOk && indexOk ==>
                  && db.log == written + [ListTeacherClasses(user.value)] && classNameInput == ""
                  && (loadOk ==> Reloaded(docs', user.value, pageSize, old(State()), State()))
                  && (!loadOk ==> State() == old(State())))
    {
      if user.None? {
        return;
      }
      var name := Trim(classNameRaw.GetOr(""));
      if name == "" {
        return;
      }
      var search := FindUniqueCode(attempts);
      if !search.Free? {
        return;
      }
      var written := WriteClass(user.value, newId, name, search.code, now, classOk, indexOk);
      if !written {
        return;
      }
      classNameInput := "";
      LoadClasses(loadOk);
    }
  
    /** `RenameRoutine`: a trimmed non-empty name renames both documents; the list is
        reloaded only when neither write faulted. */
    method RenameRoutine(classId: string, newNameRaw: Option<string>, now: int,
                         globalOk: bool, indexOk: bool, loadOk: bool)
      requires Valid()
      modifies this, db
      ensures Valid()
      ensures classNameInput == old(classNameInput) && loadedScene == old(loadedScene)
      ensures var newName := Trim(newNameRaw.GetOr(""));
        if user.None? || newName == "" then
          db.docs == old(db.docs) && db.log == old(db.log) && State() == old(State())
        else
          var owner := user.value;
          var updates := old(db.log) + [Call.Update(ClassDoc(classId))] + [Call.Update(TeacherClassDoc(owner, classId))];
          var failed := !globalOk || !indexOk || ClassDoc(classId) !in old(db.docs)
                        || TeacherClassDoc(owner, classId) !in old(db.docs);
          && db.docs == Renamed(old(db.docs), classId, owner, newName, now, globalOk, indexOk)
          && (failed ==> db.log == updates && State() == old(State()))
          && (!failed ==> db.log == updates + [ListTeacherClasses(owner)]
                          && (loadOk ==> Reloaded(db.docs, owner, pageSize, old(State()), State()))
                          && (!loadOk ==> State() == old(State())))
    {
      if user.None? {
        return;
      }
      var newName := Trim(newNameRaw.GetOr(""));
      if newName == "" {
        return;
      }
      var failed := RenamePair(db, classId, user.value, newName, now, globalOk, indexOk);
      if failed {
        return;
      }
      LoadClasses(loadOk);
    }

    /** Renames the selected class; without a selection nothing happens. */
    method RenameSelected(newNameRaw: Option<string>, now: int, globalOk: bool, indexOk: bool, loadOk: bool)
      requires Valid()
      modifies this, db
      ensures Valid()
      ensures classNameInput == old(classNameInput) && loadedScene == old(loadedScene)
      ensures !HasSelection(old(selectedClassId)) ==>
                db.docs == old(db.docs) && db.log == old(db.log) && State() == old(State())
      ensures HasSelection(old(selectedClassId)) ==>
        var classId := old(selectedClassId).value;
        var newName := Trim(newNameRaw.GetOr(""));
        if user.None? || newName == "" then
          db.docs == old(db.docs) && db.log == old(db.log) && State() == old(State())
        else
          var owner := user.value;
          var updates := old(db.log) + [Call.Update(ClassDoc(classId))] + [Call.Update(TeacherClassDoc(owner, classId))];
          var failed := !globalOk || !indexOk || ClassDoc(classId) !in old(db.docs)
                        || TeacherClassDoc(owner, classId) !in old(db.docs);
          && db.docs == Renamed(old(db.docs), classId, owner, newName, now, globalOk, indexOk)
          && (failed ==> db.log == updates && State() == old(State()))
          && (!failed ==> db.log == updates + [ListTeacherClasses(owner)]
                          && (loadOk ==> Reloaded(db.docs, owner, pageSize, old(State()), State()))
                          && (!loadOk ==> State() == old(State())))
    {
      if !HasSelection(selectedClassId) {
        return;
      }
      RenameRoutine(selectedClassId.value, newNameRaw, now, globalOk, indexOk, loadOk);
    }

    /** `DeleteRoutine`: deletes both documents; when neither delete faulted the selection
        is cleared and the list reloaded. */
    method DeleteRoutine(classId: string, globalOk: bool, indexOk: bool, loadOk: bool)
      requires Valid()
      modifies this, db
      ensures Valid()
      ensures classNameInput == old(classNameInput) && loadedScene == old(loadedScene)
      ensures user.None? ==> db.docs == old(db.docs) && db.log == old(db.log) && State() == old(State())
      ensures user.Some? ==>
        var owner := user.value;
        var deletes := old(db.log) + [Call.Delete(ClassDoc(classId))] + [Call.Delete(TeacherClassDoc(owner, classId))];
        var cleared := old(State()).(selectedClassId := None, selectedIndex := -1);
        && db.docs == Deleted(old(db.docs), classId, owner, globalOk, indexOk)
        && (!(globalOk && indexOk) ==> db.log == deletes && State() == old(State()))
        && (globalOk && indexOk ==> db.log == deletes + [ListTeacherClasses(owner)]
                                    && (loadOk ==> Reloaded(db.docs, owner, pageSize, cleared, State()))
                                    && (!loadOk ==> State() == cleared))
    {
      if user.None? {
        return;
      }
      var failed := DeletePair(db, classId, user.value, globalOk, indexOk);
      if failed {
        return;
      }
      selectedClassId, selectedIndex := None, -1;
      LoadClasses(loadOk);
    }

    /** Deletes the selected class; without a selection nothing happens. */
    method DeleteSelected(globalOk: bool, indexOk: bool, loadOk: bool)
      requires Valid()
      modifies this, db
      ensures Valid()
      ensures classNameInput == old(classNameInput) && loadedScene == old(loadedScene)
      ensures !HasSelection(old(selectedClassId)) ==>
                db.docs == old(db.docs) && db.log == old(db.log) && State() == old(State())
      ensures HasSelection(old(selectedClassId)) && user.None? ==>
                db.docs == old(db.docs) && db.log == old(db.log) && State() == old(State())
      ensures HasSelection(old(selectedClassId)) && user.Some? ==>
        var classId := old(selectedClassId).value;
        var owner := user.value;
        var deletes := old(db.log) + [Call.Delete(ClassDoc(classId))] + [Call.Delete(TeacherClassDoc(owner, classId))];
        var cleared := old(State()).(selectedClassId := None, selectedIndex := -1);
        && db.docs == Deleted(old(db.docs), classId, owner, globalOk, indexOk)
        && (!(globalOk && indexOk) ==> db.log == deletes && State() == old(State()))
        && (globalOk && indexOk ==> db.log == deletes + [ListTeacherClasses(owner)]
                                    && (loadOk ==> Reloaded(db.docs, owner, pageSize, cleared, State()))
                                    && (!loadOk ==> State() == cleared))
    {
      if !HasSelection(selectedClassId) {
        return;
      }
      DeleteRoutine(selectedClassId.value, globalOk, indexOk, loadOk);
    }
  }
}
