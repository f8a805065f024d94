/**
  * `RepoDB`: the persistent catalog, one row per repository, keyed by its
  * unique path.
  *
  * The SQLite table `repos(id, name, path UNIQUE, size_bytes, mtime,
  * remote_url)` is a sequence of rows in rowid order plus the id that
  * AUTOINCREMENT hands out next. Nothing ever deletes a row, so ids grow with
  * the row's position. SQLite allocates the new rowid, and raises the
  * AUTOINCREMENT counter to it, before it checks the `path` conflict, and a
  * rowid once allocated is never reused; so every upsert uses up one id, also
  * one that ends in an update. `upsert_repo` is `INSERT ... ON CONFLICT(path) DO
  * UPDATE`, `all_repos` is `ORDER BY mtime DESC`, and `search` filters by a
  * case-insensitive match on name or path before the same ordering.
  */
module Catalog {
  import opened Wrappers
  import opened Text

  datatype Repo = Repo(id: nat, name: string, path: string, sizeBytes: int, mtime: int, remoteUrl: Option<string>)

  /** The table's rows in rowid order and the next AUTOINCREMENT id. */
  datatype Table = Table(rows: seq<Repo>, nextId: nat)

  predicate UniquePaths(rows: seq<Repo>)
  {
    forall i, j :: 0 <= i < j < |rows| ==> rows[i].path != rows[j].path
  }

  /** The schema's UNIQUE path, and ids handed out in increasing order from 1. */
  predicate WellFormed(t: Table)
  {
    && UniquePaths(t.rows)
    && 1 <= t.nextId
    && (forall i, j :: 0 <= i < j < |t.rows| ==> t.rows[i].id < t.rows[j].id)
    && (forall i :: 0 <= i < |t.rows| ==> 1 <= t.rows[i].id < t.nextId)
  }

  /** The number of rows stored under `path`. */
  function CountPath(rows: seq<Repo>, path: string): nat
  {
    if rows == [] then 0
    else CountPath(rows[..|rows| - 1], path) + (if rows[|rows| - 1].path == path then 1 else 0)
  }

  /** The row that conflicts with an insert of `path`: its position, or -1 when there is none. */
  function IndexOfPath(rows: seq<Repo>, path: string): (r: int)
    ensures -1 <= r < |rows|
    ensures r >= 0 ==> rows[r].path == path
    ensures r < 0 <==> forall k :: 0 <= k < |rows| ==> rows[k].path != path
  {
    if rows == [] then -1
    else if rows[|rows| - 1].path == path then |rows| - 1
    else IndexOfPath(rows[..|rows| - 1], path)
  }

  /**
    * `INSERT INTO repos ... ON CONFLICT(path) DO UPDATE SET name, size_bytes,
    * mtime, remote_url`: a fresh row with the next id, or the conflicting row
    * with every column but `id` and `path` replaced. Either way the id
    * allocated for the insert is used up.
    */
  function UpsertRow(t: Table, name: string, path: string, sizeBytes: int, mtime: int, remoteUrl: Option<string>): Table
  {
    var i := IndexOfPath(t.rows, path);
    if i >= 0 then
      Table(t.rows[i := Repo(t.rows[i].id, name, path, sizeBytes, mtime, remoteUrl)], t.nextId + 1)
    else
      Table(t.rows + [Repo(t.nextId, name, path, sizeBytes, mtime, remoteUrl)], t.nextId + 1)
  }

  lemma {:induction false} CountPathUnique(rows: seq<Repo>, path: string)
    requires UniquePaths(rows)
    ensures CountPath(rows, path) == if IndexOfPath(rows, path) >= 0 then 1 else 0
  {
    if rows != [] {
      var init := rows[..|rows| - 1];
      assert UniquePaths(init);
      CountPathUnique(init, path);
      if rows[|rows| - 1].path == path {
        assert forall k :: 0 <= k < |init| ==> init[k].path != path by {
          forall k | 0 <= k < |init| ensures init[k].path != path {
            assert rows[k] == init[k];
          }
        }
      } else if IndexOfPath(rows, path) >= 0 {
        var k := IndexOfPath(rows, path);
        assert init[k] == rows[k];
      }
    }
  }

  /** `upsert_repo` keeps paths unique and ids increasing. */
  lemma UpsertKeepsWellFormed(t: Table, name: string, path: string, sizeBytes: int, mtime: int, remoteUrl: Option<string>)
    requires WellFormed(t)
    ensures WellFormed(UpsertRow(t, name, path, sizeBytes, mtime, remoteUrl))
  {
    var r := UpsertRow(t, name, path, sizeBytes, mtime, remoteUrl);
    var k := IndexOfPath(t.rows, path);
    if k >= 0 {
      forall i, j | 0 <= i < j < |r.rows| ensures r.rows[i].path != r.rows[j].path {
        assert r.rows[i].path == t.rows[i].path && r.rows[j].path == t.rows[j].path;
      }
    } else {
      forall i, j | 0 <= i < j < |r.rows| ensures r.rows[i].path != r.rows[j].path {
        if j == |t.rows| {
          assert r.rows[i] == t.rows[i];
        }
      }
    }
  }

  /**
    * After `upsert_repo` exactly one row is stored under `path`; it carries the
    * call's columns, and the id of the row that was already there or, for a
    * new path, the next id.
    */
  lemma UpsertStoresArguments(t: Table, name: string, path: string, sizeBytes: int, mtime: int, remoteUrl: Option<string>)
    requires WellFormed(t)
    ensures var r := UpsertRow(t, name, path, sizeBytes, mtime, remoteUrl);
            var k := IndexOfPath(t.rows, path);
            var id := if k >= 0 then t.rows[k].id else t.nextId;
      && CountPath(r.rows, path) == 1
      && IndexOfPath(r.rows, path) >= 0
      && r.rows[IndexOfPath(r.rows, path)] == Repo(id, name, path, sizeBytes, mtime, remoteUrl)
  {
    var r := UpsertRow(t, name, path, sizeBytes, mtime, remoteUrl);
    UpsertKeepsWellFormed(t, name, path, sizeBytes, mtime, remoteUrl);
    var k := IndexOfPath(t.rows, path);
    var at := if k >= 0 then k else |t.rows|;
    assert r.rows[at].path == path;
    var j := IndexOfPath(r.rows, path);
    assert j == at;
    CountPathUnique(r.rows, path);
  }

  /**
    * `upsert_repo` leaves every row stored under another path in place, adds
    * a row only for a new path, and uses up one id on every call.
    */
  lemma UpsertKeepsOtherRows(t: Table, name: string, path: string, sizeBytes: int, mtime: int, remoteUrl: Option<string>)
    ensures var r := UpsertRow(t, name, path, sizeBytes, mtime, remoteUrl);
            var isNew := IndexOfPath(t.rows, path) < 0;
      && |r.rows| == |t.rows| + (if isNew then 1 else 0)
      && r.nextId == t.nextId + 1
      && forall i :: 0 <= i < |t.rows| && t.rows[i].path != path ==> r.rows[i] == t.rows[i]
  {
  }

  /**
    * Upserting the same path twice leaves one row for it, carrying the second
    * call's columns and the id the first call settled.
    */
  lemma UpsertTwice(t: Table, path: string,
                    name1: string, size1: int, mtime1: int, remote1: Option<string>,
                    name2: string, size2: int, mtime2: int, remote2: Option<string>)
    requires WellFormed(t)
    ensures var t1 := UpsertRow(t, name1, path, size1, mtime1, remote1);
            var t2 := UpsertRow(t1, name2, path, size2, mtime2, remote2);
            var k := IndexOfPath(t1.rows, path);
      && CountPath(t2.rows, path) == 1
      && k >= 0
      && t2.rows == t1.rows[k := Repo(t1.rows[k].id, name2, path, size2, mtime2, remote2)]
      && t2.rows[k].id == (if IndexOfPath(t.rows, path) >= 0 then t.rows[IndexOfPath(t.rows, path)].id else t.nextId)
  {
    UpsertStoresArguments(t, name1, path, size1, mtime1, remote1);
    UpsertKeepsWellFormed(t, name1, path, size1, mtime1, remote1);
    var t1 := UpsertRow(t, name1, path, size1, mtime1, remote1);
    UpsertStoresArguments(t1, name2, path, size2, mtime2, remote2);
  }

  /**
    * An upsert that ends in an update still uses up an id: in a new table,
    * upserting `/a` twice and then `/b` gives `/b` the id 3.
    */
  lemma ConflictUsesUpId(name: string, size: int, mtime: int, remote: Option<string>)
    ensures var t1 := UpsertRow(Table([], 1), name, "/a", size, mtime, remote);
            var t2 := UpsertRow(t1, name, "/a", size, mtime, remote);
            var t3 := UpsertRow(t2, name, "/b", size, mtime, remote);
      t3.rows == [Repo(1, name, "/a", size, mtime, remote), Repo(3, name, "/b", size, mtime, remote)]
  {
    var t1 := UpsertRow(Table([], 1), name, "/a", size, mtime, remote);
    assert t1.rows == [Repo(1, name, "/a", size, mtime, remote)];
    var t2 := UpsertRow(t1, name, "/a", size, mtime, remote);
    assert t2 == Table(t1.rows, 3);
    assert IndexOfPath(t2.rows, "/b") == -1;
  }

  /** The ordering `ORDER BY mtime DESC` promises. */
  predicate NewestFirst(rows: seq<Repo>)
  {
    forall i, j :: 0 <= i < j < |rows| ==> rows[i].mtime >= rows[j].mtime
  }

  /** Places `x` before the first row that is not newer than it. */
  function InsertByMtime(x: Repo, rows: seq<Repo>): (r: seq<Repo>)
    requires NewestFirst(rows)
    ensures NewestFirst(r)
    ensures multiset(r) == multiset(rows) + multiset{x}
  {
    if rows == [] || x.mtime >= rows[0].mtime then [x] + rows
    else
      var tail := InsertByMtime(x, rows[1..]);
      assert rows == [rows[0]] + rows[1..];
      NotNewerThanHead(x, rows, tail);
      NewestFirstCons(rows[0], tail);
      [rows[0]] + tail
  }

  /** A reordering of the rows after the head, plus an older `x`, is no newer than the head. */
  lemma NotNewerThanHead(x: Repo, rows: seq<Repo>, tail: seq<Repo>)
    requires rows != [] && NewestFirst(rows) && x.mtime < rows[0].mtime
    requires multiset(tail) == multiset(rows[1..]) + multiset{x}
    ensures forall y :: y in tail ==> y.mtime <= rows[0].mtime
  {
    forall y | y in tail ensures y.mtime <= rows[0].mtime {
      assert y in multiset(tail);
      if y != x {
        assert y in multiset(rows[1..]);
        var j :| 0 <= j < |rows[1..]| && rows[1..][j] == y;
        assert rows[j + 1] == y;
      }
    }
  }

  lemma NewestFirstCons(h: Repo, t: seq<Repo>)
    requires NewestFirst(t)
    requires forall y :: y in t ==> y.mtime <= h.mtime
    ensures NewestFirst([h] + t)
  {
    var r := [h] + t;
    forall i, j | 0 <= i < j < |r| ensures r[i].mtime >= r[j].mtime {
      assert r[j] == t[j - 1];
      if i > 0 {
        assert r[i] == t[i - 1];
      } else {
        assert t[j - 1] in t;
      }
    }
  }

  /**
    * `ORDER BY mtime DESC`. SQL leaves the order of equal mtimes open; this
    * model keeps them in rowid order.
    */
  function SortByMtimeDesc(rows: seq<Repo>): (r: seq<Repo>)
    ensures NewestFirst(r)
    ensures multiset(r) == multiset(rows)
  {
    if rows == [] then []
    else
      assert rows == [rows[0]] + rows[1..];
      InsertByMtime(rows[0], SortByMtimeDesc(rows[1..]))
  }

  /** The intended search: `query` occurs in the name or the path, ignoring case. */
  predicate Matches(r: Repo, query: string)
  {
    Contains(Lower(r.name), Lower(query)) || Contains(Lower(r.path), Lower(query))
  }

  /** The rows `search` selects, in rowid order. */
  function Select(rows: seq<Repo>, query: string): seq<Repo>
  {
    if rows == [] then []
    else
      var init := Select(rows[..|rows| - 1], query);
      var last := rows[|rows| - 1];
      if Matches(last, query) then init + [last] else init
  }

  /** `search` keeps each matching row as often as it is stored, and nothing else. */
  lemma {:induction false} SelectCounts(rows: seq<Repo>, query: string)
    ensures forall x :: multiset(Select(rows, query))[x] == if Matches(x, query) then multiset(rows)[x] else 0
  {
    if rows != [] {
      var init, last := rows[..|rows| - 1], rows[|rows| - 1];
      SelectCounts(init, query);
      assert rows == init + [last];
    }
  }

  /** The empty string occurs in every name. */
  lemma EmptyQueryMatches(r: Repo)
    ensures Matches(r, "")
  {
    assert Lower("") == "";
    assert OccursAt(Lower(r.name), "", 0);
  }

  lemma {:induction false} EmptyQuerySelectsAll(rows: seq<Repo>)
    ensures Select(rows, "") == rows
  {
    if rows != [] {
      var init, last := rows[..|rows| - 1], rows[|rows| - 1];
      EmptyQuerySelectsAll(init);
      EmptyQueryMatches(last);
      assert Select(rows, "") == Select(init, "") + [last];
      assert rows == init + [last];
    }
  }

  /**
    * SQL `LIKE` as SQLite evaluates it without an ESCAPE clause: `%` matches
    * any run of characters, `_` any one character, and every other character
    * itself, ignoring ASCII case.
    */
  predicate LikeMatch(s: string, pattern: string)
    decreases |s| + |pattern|
  {
    if pattern == [] then s == []
    else if pattern[0] == '%' then LikeMatch(s, pattern[1..]) || (s != [] && LikeMatch(s[1..], pattern))
    else s != [] && (pattern[0] == '_' || LowerChar(s[0]) == LowerChar(pattern[0])) && LikeMatch(s[1..], pattern[1..])
  }

  /** The pattern `search` builds: `f"%{query.lower()}%"`. */
  function SearchPattern(query: string): string
  {
    "%" + Lower(query) + "%"
  }

  /** The row filter of `search` as written: `lower(name) LIKE ? OR lower(path) LIKE ?`. */
  predicate MatchesAsWritten(r: Repo, query: string)
  {
    LikeMatch(Lower(r.name), SearchPattern(query)) || LikeMatch(Lower(r.path), SearchPattern(query))
  }

  predicate NoWildcards(q: string)
  {
    forall i :: 0 <= i < |q| ==> q[i] != '%' && q[i] != '_'
  }

  lemma {:induction false} PercentMatchesAll(s: string)
    ensures LikeMatch(s, "%")
    decreases |s|
  {
    assert "%"[1..] == "";
    if s != [] {
      PercentMatchesAll(s[1..]);
    }
  }

  /** Without wildcards, `p%` matches exactly the strings that start with `p`. */
  lemma {:induction false} LikePrefix(s: string, p: string)
    requires NoWildcards(p) && IsLower(p) && IsLower(s)
    ensures LikeMatch(s, p + "%") <==> |p| <= |s| && s[..|p|] == p
    decreases |p|
  {
    if p == [] {
      assert p + "%" == "%";
      PercentMatchesAll(s);
    } else {
      assert (p + "%")[1..] == p[1..] + "%";
      assert (p + "%")[0] == p[0];
      if s != [] {
        LikePrefix(s[1..], p[1..]);
        assert IsLower(s[1..]);
        if |p| <= |s| && s[..|p|] == p {
          assert s[1..][..|p[1..]|] == p[1..];
        }
        if LikeMatch(s, p + "%") {
          assert s[0] == p[0];
          assert s[..|p|] == [s[0]] + s[1..][..|p| - 1];
          assert p == [p[0]] + p[1..];
        }
      }
    }
  }

  /** A leading `%` lets the rest of the pattern start anywhere. */
  lemma {:induction false} LikeLeadingPercent(s: string, rest: string)
    ensures LikeMatch(s, "%" + rest) <==> exists i :: 0 <= i <= |s| && LikeMatch(s[i..], rest)
    decreases |s|
  {
    assert ("%" + rest)[1..] == rest;
    assert s[0..] == s;
    if s != [] {
      LikeLeadingPercent(s[1..], rest);
      if exists i :: 0 <= i <= |s| && LikeMatch(s[i..], rest) {
        var i :| 0 <= i <= |s| && LikeMatch(s[i..], rest);
        if i > 0 {
          assert s[1..][i - 1..] == s[i..];
        }
      }
      if exists i :: 0 <= i <= |s[1..]| && LikeMatch(s[1..][i..], rest) {
        var i :| 0 <= i <= |s[1..]| && LikeMatch(s[1..][i..], rest);
        assert s[1..][i..] == s[i + 1..];
      }
    }
  }

  /** On lower-cased text, `%q%` without wildcards is exactly the substring test. */
  lemma LikeIsContains(s: string, q: string)
    requires NoWildcards(q) && IsLower(q) && IsLower(s)
    ensures LikeMatch(s, "%" + q + "%") <==> Contains(s, q)
  {
    assert "%" + q + "%" == "%" + (q + "%");
    LikeLeadingPercent(s, q + "%");
    if Contains(s, q) {
      var i :| 0 <= i <= |s| && OccursAt(s, q, i);
      assert IsLower(s[i..]);
      LikePrefix(s[i..], q);
      assert s[i..][..|q|] == s[i..i + |q|];
    }
    if LikeMatch(s, "%" + q + "%") {
      var i :| 0 <= i <= |s| && LikeMatch(s[i..], q + "%");
      assert IsLower(s[i..]);
      LikePrefix(s[i..], q);
      assert s[i..][..|q|] == s[i..i + |q|];
      assert OccursAt(s, q, i);
    }
  }

  lemma LowerKeepsNoWildcards(s: string)
    requires NoWildcards(s)
    ensures NoWildcards(Lower(s))
  {
  }

  /** For a query without `%` or `_`, the search as written selects exactly the intended rows. */
  lemma AsWrittenAgreesWithoutWildcards(r: Repo, query: string)
    requires NoWildcards(query)
    ensures MatchesAsWritten(r, query) <==> Matches(r, query)
  {
    LowerIsLower(query);
    LowerKeepsNoWildcards(query);
    LowerIsLower(r.name);
    LowerIsLower(r.path);
    LikeIsContains(Lower(r.name), Lower(query));
    LikeIsContains(Lower(r.path), Lower(query));
  }

  /**
    * The query is not escaped, so its `_` matches any character: searching
    * for `a_c` lists a repository called `abc` whose path does not contain `a_c`.
    */
  lemma WildcardQueryMatchesOtherNames()
    ensures var r := Repo(1, "abc", "/abc", 0, 0, None);
      MatchesAsWritten(r, "a_c") && !Matches(r, "a_c")
  {
    var r := Repo(1, "abc", "/abc", 0, 0, None);
    assert Lower("abc") == "abc";
    assert Lower("/abc") == "/abc";
    assert Lower("a_c") == "a_c";
    assert SearchPattern("a_c") == "%a_c%";
    assert LikeMatch("", "%") by { assert "%"[1..] == ""; }
    assert LikeMatch("c", "c%") by { assert "c%"[1..] == "%"; assert "c"[1..] == ""; }
    assert LikeMatch("bc", "_c%") by { assert "_c%"[1..] == "c%"; assert "bc"[1..] == "c"; }
    assert LikeMatch("abc", "a_c%") by { assert "a_c%"[1..] == "_c%"; assert "abc"[1..] == "bc"; }
    assert LikeMatch("abc", "%a_c%") by { assert "%a_c%"[1..] == "a_c%"; }
    assert !Contains("abc", "a_c") by {
      forall i: nat ensures !OccursAt("abc", "a_c", i) {
        if i + 3 <= 3 {
          assert "abc"[i..i + 3][1] == 'b';
        }
      }
    }
    assert !Contains("/abc", "a_c") by {
      forall i: nat ensures !OccursAt("/abc", "a_c", i) {
        if i + 3 <= 4 {
          assert "/abc"[i..i + 3][1] != '_';
        }
      }
    }
  }

  class RepoDB {
    var rows: seq<Repo>
    var nextId: nat

    ghost function State(): Table
      reads this
    {
      Table(rows, nextId)
    }

    ghost predicate Valid()
      reads this
    {
      WellFormed(State())
    }

    /** A freshly created, empty `repos` table. */
    constructor ()
      ensures Valid() && rows == [] && nextId == 1
    {
      rows := [];
      nextId := 1;
    }

    /** `upsert_repo`: insert a row for `path`, or update the row already stored under it. */
    method Upsert(name: string, path: string, sizeBytes: int, mtime: int, remoteUrl: Option<string>)
      requires Valid()
      modifies this
      ensures Valid()
      ensures State() == UpsertRow(old(State()), name, path, sizeBytes, mtime, remoteUrl)
    {
      UpsertKeepsWellFormed(State(), name, path, sizeBytes, mtime, remoteUrl);
      var i := IndexOfPath(rows, path);
      if i >= 0 {
        rows := rows[i := Repo(rows[i].id, name, path, sizeBytes, mtime, remoteUrl)];
      } else {
        rows := rows + [Repo(nextId, name, path, sizeBytes, mtime, remoteUrl)];
      }
      nextId := nextId + 1;
    }

    /** `all_repos`: every stored row once, newest modification first. */
    function AllRepos(): (r: seq<Repo>)
      reads this
      ensures NewestFirst(r)
      ensures multiset(r) == multiset(rows)
    {
      SortByMtimeDesc(rows)
    }

    /**
      * `search`: the rows whose name or path contains `query`, ignoring case,
      * newest modification first (the query's `%` and `_` taken literally).
      */
    function Search(query: string): (r: seq<Repo>)
      reads this
      ensures NewestFirst(r)
      ensures forall x :: multiset(r)[x] == if Matches(x, query) then multiset(rows)[x] else 0
    {
      SelectCounts(rows, query);
      SortByMtimeDesc(Select(rows, query))
    }

    /** `on_search` lists `all_repos` for an empty query, which `search("")` also returns. */
    lemma EmptySearchListsAll()
      ensures Search("") == AllRepos()
    {
      EmptyQuerySelectsAll(rows);
    }
  }
}
