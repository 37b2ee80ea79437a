/**
 * The read-only queries of the admin API: GET /admin/forms lists forms of
 * one status (or all), newest first, up to a limit; GET /admin/stats counts
 * the forms of each status. Neither changes the table.
 */
module Queries {
  import opened Wrappers
  import opened Formularios

  /** The WHERE clause of the listing: none, or `status = ?`. */
  datatype StatusFilter = All | Only(text: string)

  const DefaultStatus := "pendente"
  const DefaultLimit := 50

  /** `req.query.status || 'pendente'`; the value 'all' drops the WHERE clause. */
  function FilterOf(status: Option<string>): (f: StatusFilter)
    ensures f == All <==> status == Some("all")
    ensures status.None? || status == Some("") ==> f == Only(DefaultStatus)
    ensures f.Only? && status.Some? && status.value != "" ==> f.text == status.value
  {
    var s := if status.None? || status.value == "" then DefaultStatus else status.value;
    if s == "all" then All else Only(s)
  }

  /**
   * `parseInt(req.query.limit) || 50` (None stands for NaN) as SQLite's
   * LIMIT reads it: a negative limit means no limit, which is None here.
   */
  function LimitOf(limit: Option<int>): (cap: Option<nat>)
    ensures limit.None? || limit == Some(0) ==> cap == Some(DefaultLimit)
    ensures limit.Some? && limit.value > 0 ==> cap == Some(limit.value)
    ensures limit.Some? && limit.value < 0 ==> cap.None?
  {
    var n := if limit.None? || limit.value == 0 then DefaultLimit else limit.value;
    if n < 0 then None else Some(n)
  }

  predicate Matches(f: Form, filter: StatusFilter) {
    filter.All? || StatusText(f.status) == filter.text
  }

  function MatchingIds(rows: map<int, Form>, filter: StatusFilter): set<int> {
    set id | id in rows && Matches(rows[id], filter)
  }

  function IdsOf(s: seq<Form>): set<int> {
    set i | 0 <= i < |s| :: s[i].id
  }

  /** `ORDER BY created_at DESC`. */
  predicate NewestFirst(s: seq<Form>) {
    forall i, j :: 0 <= i < j < |s| ==> s[i].createdAt >= s[j].createdAt
  }

  predicate DistinctIds(s: seq<Form>) {
    forall i, j :: 0 <= i < j < |s| ==> s[i].id != s[j].id
  }

  /** Every element of `s` is a row of the table that passes the filter. */
  predicate RowsOf(rows: map<int, Form>, s: seq<Form>, filter: StatusFilter) {
    forall i :: 0 <= i < |s| ==> s[i].id in rows && rows[s[i].id] == s[i] && Matches(s[i], filter)
  }

  /**
   * `r` is an answer to `SELECT * FROM formularios [WHERE status = ?]
   * ORDER BY created_at DESC LIMIT ?`: distinct matching rows, newest
   * first, as many as the limit allows, and no matching row left out is
   * newer than one kept.
   */
  predicate IsListing(rows: map<int, Form>, filter: StatusFilter, cap: Option<nat>, r: seq<Form>) {
    var matching := MatchingIds(rows, filter);
    && RowsOf(rows, r, filter) && DistinctIds(r) && NewestFirst(r)
    && |r| == (if cap.Some? && cap.value < |matching| then cap.value else |matching|)
    && NoneNewerLeftOut(rows, matching, r)
  }

  /** No row of `ids` missing from `r` was created after a row that `r` keeps. */
  predicate NoneNewerLeftOut(rows: map<int, Form>, ids: set<int>, r: seq<Form>) {
    forall id :: id in ids && id !in IdsOf(r) && id in rows ==>
      forall i :: 0 <= i < |r| ==> rows[id].createdAt <= r[i].createdAt
  }

  /** How many leading elements of `s` are strictly newer than `f`. */
  function NewerPrefix(s: seq<Form>, f: Form): (k: nat)
    ensures k <= |s|
    ensures forall i :: 0 <= i < k ==> s[i].createdAt > f.createdAt
    ensures k < |s| ==> s[k].createdAt <= f.createdAt
  {
    if s == [] || s[0].createdAt <= f.createdAt then 0 else 1 + NewerPrefix(s[1..], f)
  }

  /** Places `f` in a newest-first sequence, after every strictly newer element. */
  function InsertNewestFirst(s: seq<Form>, f: Form): (r: seq<Form>)
    ensures multiset(r) == multiset(s) + multiset{f}
  {
    var k := NewerPrefix(s, f);
    assert s[..k] + s[k..] == s;
    s[..k] + [f] + s[k..]
  }

  lemma InsertKeepsOrder(s: seq<Form>, f: Form)
    requires NewestFirst(s)
    ensures NewestFirst(InsertNewestFirst(s, f))
  {
    var k := NewerPrefix(s, f);
    var r := InsertNewestFirst(s, f);
    assert r == s[..k] + [f] + s[k..];
    forall i, j | 0 <= i < j < |r| ensures r[i].createdAt >= r[j].createdAt {
      if j < k {
        assert r[i] == s[i] && r[j] == s[j];
      } else if j == k {
        assert r[i] == s[i] && r[j] == f;
      } else if i < k {
        assert r[i] == s[i] && r[j] == s[j - 1];
      } else if i == k {
        assert r[j] == s[j - 1] && s[k].createdAt >= s[j - 1].createdAt;
      } else {
        assert r[i] == s[i - 1] && r[j] == s[j - 1];
      }
    }
  }

  lemma InsertKeepsDistinct(s: seq<Form>, f: Form)
    requires DistinctIds(s) && f.id !in IdsOf(s)
    ensures DistinctIds(InsertNewestFirst(s, f))
  {
    var k := NewerPrefix(s, f);
    var r := InsertNewestFirst(s, f);
    assert r == s[..k] + [f] + s[k..];
    forall i, j | 0 <= i < j < |r| ensures r[i].id != r[j].id {
      if j < k {
        assert r[i] == s[i] && r[j] == s[j];
      } else if j == k {
        assert r[i] == s[i] && r[j] == f;
        assert s[i].id in IdsOf(s);
      } else if i < k {
        assert r[i] == s[i] && r[j] == s[j - 1];
      } else if i == k {
        assert r[i] == f && r[j] == s[j - 1];
        assert s[j - 1].id in IdsOf(s);
      } else {
        assert r[i] == s[i - 1] && r[j] == s[j - 1];
      }
    }
  }

  lemma {:induction false} DistinctIdsCount(s: seq<Form>)
    requires DistinctIds(s)
    ensures |IdsOf(s)| == |s|
  {
    if s != [] {
      DistinctIdsCount(s[1..]);
      assert IdsOf(s) == {s[0].id} + IdsOf(s[1..]) by {
        forall id | id in IdsOf(s) ensures id in {s[0].id} + IdsOf(s[1..]) {
          var i :| 0 <= i < |s| && s[i].id == id;
          if i > 0 {
            assert s[1..][i - 1] == s[i];
          }
        }
        forall id | id in IdsOf(s[1..]) ensures id in IdsOf(s) {
          var i :| 0 <= i < |s[1..]| && s[1..][i].id == id;
          assert s[i + 1] == s[1..][i];
        }
      }
      assert s[0].id !in IdsOf(s[1..]) by {
        forall i | 0 <= i < |s[1..]| ensures s[1..][i].id != s[0].id {
          assert s[1..][i] == s[i + 1];
        }
      }
    }
  }

  /** Keyed by id, as the table's rows are. */
  predicate KeyedById(rows: map<int, Form>) {
    forall id :: id in rows ==> rows[id].id == id
  }

  /**
   * The loop's partial answer: every matching row outside `todo`, sorted
   * newest first, once each.
   */
  predicate SortedSoFar(rows: map<int, Form>, filter: StatusFilter, sorted: seq<Form>, todo: set<int>) {
    && todo <= rows.Keys
    && RowsOf(rows, sorted, filter) && DistinctIds(sorted) && NewestFirst(sorted)
    && IdsOf(sorted) == MatchingIds(rows, filter) - todo
  }

  lemma InsertMembers(s: seq<Form>, f: Form)
    ensures forall x :: x in InsertNewestFirst(s, f) <==> x in s || x == f
  {
    var next := InsertNewestFirst(s, f);
    forall x ensures x in next <==> x in s || x == f {
      assert x in next <==> x in multiset(next);
      assert x in s <==> x in multiset(s);
    }
  }

  lemma InsertIds(s: seq<Form>, f: Form)
    ensures IdsOf(InsertNewestFirst(s, f)) == IdsOf(s) + {f.id}
  {
    var next := InsertNewestFirst(s, f);
    InsertMembers(s, f);
    forall x | x in IdsOf(next) ensures x in IdsOf(s) + {f.id} {
      var i :| 0 <= i < |next| && next[i].id == x;
      assert next[i] in next;
      if next[i] in s {
        var j :| 0 <= j < |s| && s[j] == next[i];
      }
    }
    forall x | x in IdsOf(s) + {f.id} ensures x in IdsOf(next) {
      if x == f.id {
        assert f in next;
        var i :| 0 <= i < |next| && next[i] == f;
      } else {
        var j :| 0 <= j < |s| && s[j].id == x;
        assert s[j] in next;
        var i :| 0 <= i < |next| && next[i] == s[j];
      }
    }
  }

  lemma InsertRows(rows: map<int, Form>, filter: StatusFilter, s: seq<Form>, f: Form)
    requires RowsOf(rows, s, filter)
    requires f.id in rows && rows[f.id] == f && Matches(f, filter)
    ensures RowsOf(rows, InsertNewestFirst(s, f), filter)
  {
    var next := InsertNewestFirst(s, f);
    InsertMembers(s, f);
    forall i | 0 <= i < |next|
      ensures next[i].id in rows && rows[next[i].id] == next[i] && Matches(next[i], filter)
    {
      assert next[i] in next;
      if next[i] != f {
        var j :| 0 <= j < |s| && s[j] == next[i];
      }
    }
  }

  /** Visiting one more key keeps the partial answer sorted, distinct and complete. */
  lemma InsertStep(rows: map<int, Form>, filter: StatusFilter, sorted: seq<Form>, todo: set<int>, id: int)
    requires KeyedById(rows) && SortedSoFar(rows, filter, sorted, todo) && id in todo
    ensures Matches(rows[id], filter) ==>
      SortedSoFar(rows, filter, InsertNewestFirst(sorted, rows[id]), todo - {id})
    ensures !Matches(rows[id], filter) ==> SortedSoFar(rows, filter, sorted, todo - {id})
  {
    var f := rows[id];
    if Matches(f, filter) {
      InsertKeepsOrder(sorted, f);
      InsertKeepsDistinct(sorted, f);
      InsertIds(sorted, f);
      InsertRows(rows, filter, sorted, f);
    }
  }

  lemma PrefixKeeps(rows: map<int, Form>, filter: StatusFilter, s: seq<Form>, n: nat)
    requires n <= |s|
    requires RowsOf(rows, s, filter) && DistinctIds(s) && NewestFirst(s)
    ensures RowsOf(rows, s[..n], filter) && DistinctIds(s[..n]) && NewestFirst(s[..n])
  {
    assert forall i :: 0 <= i < n ==> s[..n][i] == s[i];
  }

  lemma PrefixIsNewest(rows: map<int, Form>, filter: StatusFilter, s: seq<Form>, n: nat)
    requires n <= |s|
    requires RowsOf(rows, s, filter) && NewestFirst(s)
    ensures NoneNewerLeftOut(rows, IdsOf(s), s[..n])
  {
    var r := s[..n];
    forall id | id in IdsOf(s) && id !in IdsOf(r) && id in rows
      ensures forall i :: 0 <= i < |r| ==> rows[id].createdAt <= r[i].createdAt
    {
      var j :| 0 <= j < |s| && s[j].id == id;
      assert n <= j;
      assert rows[id] == s[j];
      forall i | 0 <= i < |r| ensures rows[id].createdAt <= r[i].createdAt {
        assert r[i] == s[i];
      }
    }
  }

  /** Cutting the complete sorted answer at the limit gives a listing. */
  lemma TakeNewest(rows: map<int, Form>, filter: StatusFilter, cap: Option<nat>, sorted: seq<Form>)
    requires RowsOf(rows, sorted, filter) && DistinctIds(sorted) && NewestFirst(sorted)
    requires IdsOf(sorted) == MatchingIds(rows, filter)
    ensures var n := if cap.Some? && cap.value < |sorted| then cap.value else |sorted|;
      IsListing(rows, filter, cap, sorted[..n])
  {
    DistinctIdsCount(sorted);
    var n := if cap.Some? && cap.value < |sorted| then cap.value else |sorted|;
    PrefixKeeps(rows, filter, sorted, n);
    PrefixIsNewest(rows, filter, sorted, n);
  }

  /** A non-empty set has an element to pick. */
  lemma NonEmptyHasElement(s: set<int>)
    requires s != {}
    ensures exists x :: x in s
  {
    if forall x :: x !in s {
      assert false;
    }
  }

  /** Runs the listing query over the table. */
  method ListForms(db: Table, filter: StatusFilter, cap: Option<nat>) returns (r: seq<Form>)
    requires db.Valid()
    ensures IsListing(db.rows, filter, cap, r)
  {
    var rows := db.rows;
    var todo := rows.Keys;
    var sorted: seq<Form> := [];
    while todo != {}
      invariant SortedSoFar(rows, filter, sorted, todo)
      decreases todo
    {
      NonEmptyHasElement(todo);
      var id :| id in todo;
      InsertStep(rows, filter, sorted, todo, id);
      if Matches(rows[id], filter) {
        sorted := InsertNewestFirst(sorted, rows[id]);
      }
      todo := todo - {id};
    }
    TakeNewest(rows, filter, cap, sorted);
    r := sorted[..if cap.Some? && cap.value < |sorted| then cap.value else |sorted|];
  }

  /** GET /admin/forms: the query parameters with their defaults, then the listing. */
  method AdminForms(db: Table, status: Option<string>, limit: Option<int>) returns (r: seq<Form>)
    requires db.Valid()
    ensures IsListing(db.rows, FilterOf(status), LimitOf(limit), r)
  {
    r := ListForms(db, FilterOf(status), LimitOf(limit));
  }

  /** One row of `SELECT status, COUNT(*) as count FROM formularios GROUP BY status`. */
  datatype StatRow = StatRow(status: Status, count: nat)

  function CountOf(rows: map<int, Form>, s: Status): nat {
    |IdsWith(rows, s)|
  }

  function Group(rows: map<int, Form>, s: Status): seq<StatRow> {
    if CountOf(rows, s) > 0 then [StatRow(s, CountOf(rows, s))] else []
  }

  /** The GROUP BY answer: one row per status that occurs, in ascending order of the status text. */
  function StatsRows(rows: map<int, Form>): (r: seq<StatRow>)
    ensures forall i :: 0 <= i < |r| ==> r[i].count > 0 && r[i].count == CountOf(rows, r[i].status)
    ensures forall s :: CountOf(rows, s) > 0 <==> StatRow(s, CountOf(rows, s)) in r
    ensures forall i, j :: 0 <= i < j < |r| ==> r[i].status != r[j].status
  {
    var r := Group(rows, Aprovado) + Group(rows, Pendente) + Group(rows, Reprovado);
    assert forall s :: CountOf(rows, s) > 0 <==> StatRow(s, CountOf(rows, s)) in r by {
      forall s ensures CountOf(rows, s) > 0 <==> StatRow(s, CountOf(rows, s)) in r {
        if s == Aprovado {
          assert r[..|Group(rows, Aprovado)|] == Group(rows, Aprovado);
        }
      }
    }
    r
  }

  /** The sum of the counts, accumulated from the first row to the last. */
  function SumCounts(rows: seq<StatRow>): int {
    if rows == [] then 0 else SumCounts(rows[..|rows| - 1]) + rows[|rows| - 1].count
  }

  lemma {:induction false} SumCountsAppend(a: seq<StatRow>, b: seq<StatRow>)
    ensures SumCounts(a + b) == SumCounts(a) + SumCounts(b)
    decreases |b|
  {
    if b == [] {
      assert a + b == a;
    } else {
      var ab := a + b;
      assert ab[..|ab| - 1] == a + b[..|b| - 1];
      assert ab[|ab| - 1] == b[|b| - 1];
      SumCountsAppend(a, b[..|b| - 1]);
      assert SumCounts(ab) == SumCounts(a + b[..|b| - 1]) + b[|b| - 1].count;
    }
  }

  lemma GroupSum(rows: map<int, Form>, s: Status)
    ensures SumCounts(Group(rows, s)) == CountOf(rows, s)
  {
    if CountOf(rows, s) > 0 {
      assert Group(rows, s)[..0] == [];
    }
  }

  lemma DisjointUnionSize(a: set<int>, b: set<int>)
    requires a * b == {}
    ensures |a + b| == |a| + |b|
  {
  }

  function IdsWith(rows: map<int, Form>, s: Status): set<int> {
    set id | id in rows && rows[id].status == s
  }

  /** Every form has exactly one of the three statuses. */
  lemma CountsPartition(rows: map<int, Form>)
    ensures CountOf(rows, Aprovado) + CountOf(rows, Pendente) + CountOf(rows, Reprovado) == |rows|
  {
    var a, p, r := IdsWith(rows, Aprovado), IdsWith(rows, Pendente), IdsWith(rows, Reprovado);
    assert rows.Keys == a + p + r by {
      forall id | id in rows ensures id in a + p + r {
        if rows[id].status == Aprovado {
          assert id in a;
        } else if rows[id].status == Pendente {
          assert id in p;
        } else {
          assert id in r;
        }
      }
    }
    DisjointUnionSize(a, p);
    DisjointUnionSize(a + p, r);
  }

  /** The per-status counts add up to the number of forms. */
  lemma StatsAddUp(rows: map<int, Form>)
    ensures SumCounts(StatsRows(rows)) == |rows|
  {
    var ga, gp, gr := Group(rows, Aprovado), Group(rows, Pendente), Group(rows, Reprovado);
    GroupSum(rows, Aprovado);
    GroupSum(rows, Pendente);
    GroupSum(rows, Reprovado);
    SumCountsAppend(ga, gp);
    SumCountsAppend(ga + gp, gr);
    CountsPartition(rows);
  }
}
