/**
 The `faculty` table as a value: the queries the routes run on it and the
 effect of each statement that writes it, stated in SQL's own terms (which rows
 a `WHERE` clause keeps, which rows a REPLACE deletes), together with the
 lemmas that turn those effects into the shapes the store's methods compute.
 */
module FacultyTable {
  import opened Records

  /** Ids strictly increase along the table: rowid order, and no id twice. */
  predicate IdsAscending(rows: seq<Faculty>) {
    forall i, j :: 0 <= i < j < |rows| ==> rows[i].id < rows[j].id
  }

  /** The UNIQUE constraint on the `email` column. */
  predicate EmailsUnique(rows: seq<Faculty>) {
    forall i, j :: 0 <= i < j < |rows| ==> rows[i].email != rows[j].email
  }

  /** Every id in the table was issued by the AUTOINCREMENT counter, whose
      largest issued value is `issued`. */
  predicate IdsIssued(rows: seq<Faculty>, issued: nat) {
    forall i :: 0 <= i < |rows| ==> 1 <= rows[i].id <= issued
  }

  predicate WellFormed(rows: seq<Faculty>, issued: nat) {
    IdsAscending(rows) && EmailsUnique(rows) && IdsIssued(rows, issued)
  }

  /** Every id in the table is one of `ids`. */
  predicate IdsIn(rows: seq<Faculty>, ids: set<nat>) {
    forall i :: 0 <= i < |rows| ==> rows[i].id in ids
  }

  lemma IdsInOverwrite(rows: seq<Faculty>, ids: set<nat>, k: nat, r: Faculty)
    requires IdsIn(rows, ids) && k < |rows| && r.id == rows[k].id
    ensures IdsIn(rows[k := r], ids)
  {
  }

  lemma IdsInAppend(rows: seq<Faculty>, ids: set<nat>, r: Faculty)
    requires IdsIn(rows, ids)
    ensures IdsIn(rows + [r], ids + {r.id})
  {
  }

  lemma IdsInCut(rows: seq<Faculty>, ids: set<nat>, k: nat)
    requires IdsIn(rows, ids) && k < |rows|
    ensures IdsIn(rows[..k] + rows[k + 1..], ids)
  {
    var s := rows[..k] + rows[k + 1..];
    forall i | 0 <= i < |s|
      ensures s[i].id in ids
    {
      assert s[i] == if i < k then rows[i] else rows[i + 1];
    }
  }

  /** The condition `WHERE email = ?`. */
  function HasEmail(email: string): Faculty -> bool {
    (x: Faculty) => x.email == email
  }

  /** The condition `WHERE id = ?`. */
  function HasId(id: nat): Faculty -> bool {
    (x: Faculty) => x.id == id
  }

  /** `SELECT * FROM faculty WHERE id=?`, the lookup the update route starts with. */
  function FindById(rows: seq<Faculty>, id: nat): (r: Option<Faculty>)
    ensures r.None? <==> forall i :: 0 <= i < |rows| ==> rows[i].id != id
    ensures r.Some? ==> r.value in rows && r.value.id == id
  {
    var k := IndexOf(rows, HasId(id));
    if k < |rows| then Some(rows[k]) else None
  }

  /** The rows a `WHERE p` clause selects, in table order. */
  function Where(rows: seq<Faculty>, p: Faculty -> bool): (s: seq<Faculty>)
    ensures |s| <= |rows|
    ensures forall x :: x in s <==> x in rows && p(x)
  {
    if rows == [] then []
    else (if p(rows[0]) then [rows[0]] else []) + Where(rows[1..], p)
  }

  lemma {:induction false} WhereAll(rows: seq<Faculty>, p: Faculty -> bool)
    requires forall i :: 0 <= i < |rows| ==> p(rows[i])
    ensures Where(rows, p) == rows
  {
    if rows != [] {
      WhereAll(rows[1..], p);
    }
  }

  lemma {:induction false} WhereNone(rows: seq<Faculty>, p: Faculty -> bool)
    requires forall i :: 0 <= i < |rows| ==> !p(rows[i])
    ensures Where(rows, p) == []
  {
    if rows != [] {
      WhereNone(rows[1..], p);
    }
  }

  /** When `p` rejects exactly the row at `k`, the selection is the table with that row cut out. */
  lemma {:induction false} WhereAllBut(rows: seq<Faculty>, p: Faculty -> bool, k: nat)
    requires k < |rows| && !p(rows[k])
    requires forall i :: 0 <= i < |rows| && i != k ==> p(rows[i])
    ensures Where(rows, p) == rows[..k] + rows[k + 1..]
  {
    var rest := rows[1..];
    if k == 0 {
      WhereAll(rest, p);
      assert Where(rows, p) == Where(rest, p);
      assert rows[..0] + rows[1..] == rest;
    } else {
      assert Where(rest, p) == rest[..k - 1] + rest[k..] by {
        assert forall i :: 0 <= i < |rest| && i != k - 1 ==> p(rest[i]) by {
          assert forall i :: 0 <= i < |rest| ==> rest[i] == rows[i + 1];
        }
        WhereAllBut(rest, p, k - 1);
      }
      assert Where(rows, p) == [rows[0]] + Where(rest, p) by {
        assert p(rows[0]);
      }
      assert rows[..k] == [rows[0]] + rest[..k - 1];
      assert rows[k + 1..] == rest[k..];
    }
  }

  /** A selection of a well-formed table is well formed. */
  lemma {:induction false} WhereWellFormed(rows: seq<Faculty>, issued: nat, p: Faculty -> bool)
    requires WellFormed(rows, issued)
    ensures WellFormed(Where(rows, p), issued)
  {
    if rows != [] {
      var rest := rows[1..];
      WhereWellFormed(rest, issued, p);
      var s := Where(rows, p);
      var t := Where(rest, p);
      if p(rows[0]) {
        assert s == [rows[0]] + t;
        forall j | 0 <= j < |t|
          ensures rows[0].id < t[j].id && rows[0].email != t[j].email
        {
          assert t[j] in rest;
        }
      } else {
        assert s == t;
      }
    }
  }

  /** Places `r` among `rows` at its rowid position. */
  function InsertById(rows: seq<Faculty>, r: Faculty): (s: seq<Faculty>)
    ensures |s| == |rows| + 1
    ensures forall x :: x in s <==> x in rows || x == r
  {
    if rows == [] then [r]
    else if r.id < rows[0].id then [r] + rows
    else [rows[0]] + InsertById(rows[1..], r)
  }

  lemma {:induction false} InsertByIdLast(rows: seq<Faculty>, r: Faculty)
    requires forall i :: 0 <= i < |rows| ==> rows[i].id < r.id
    ensures InsertById(rows, r) == rows + [r]
  {
    if rows != [] {
      InsertByIdLast(rows[1..], r);
    }
  }

  /** Inserting `r` into the gap left by the row with the same id puts it back in that place. */
  lemma {:induction false} InsertByIdAt(rows: seq<Faculty>, k: nat, r: Faculty)
    requires IdsAscending(rows) && k < |rows| && rows[k].id == r.id
    ensures InsertById(rows[..k] + rows[k + 1..], r) == rows[k := r]
  {
    if k == 0 {
      assert rows[..0] + rows[1..] == rows[1..];
    } else {
      var rest := rows[1..];
      InsertByIdAt(rest, k - 1, r);
      assert rows[..k] + rows[k + 1..] == [rows[0]] + (rest[..k - 1] + rest[k..]);
      assert rows[k := r] == [rows[0]] + rest[k - 1 := r];
    }
  }

  /** The rows that survive SQLite's REPLACE conflict resolution for an inserted
      row `r`: those that clash with it neither on the primary key nor on the
      UNIQUE email column. */
  function NoClash(r: Faculty): Faculty -> bool {
    (x: Faculty) => x.id != r.id && x.email != r.email
  }

  /** `INSERT OR REPLACE` of one row: every clashing row is deleted, then `r` is inserted. */
  function ReplaceInto(rows: seq<Faculty>, r: Faculty): (s: seq<Faculty>)
    ensures r in s && |s| <= |rows| + 1
  {
    InsertById(Where(rows, NoClash(r)), r)
  }

  /** After a REPLACE, `r` is in the table and every other row is an old row
      sharing neither its id nor its email; no old row that shares neither is lost. */
  lemma ReplaceIntoRows(rows: seq<Faculty>, r: Faculty)
    ensures forall x :: x in ReplaceInto(rows, r) <==> x == r || (x in rows && x.id != r.id && x.email != r.email)
  {
    assert forall x :: NoClash(r)(x) <==> x.id != r.id && x.email != r.email;
  }

  /** The row the add route's statement writes: the sub-select
      `(SELECT id FROM faculty WHERE email = ?)` yields the id of the row holding
      `email`, or NULL, for which AUTOINCREMENT issues `issued + 1`. */
  function UpsertRow(rows: seq<Faculty>, issued: nat, name: string, department: string, email: string): (r: Faculty)
    ensures r.name == name && r.department == department && r.email == email
    ensures (forall i :: 0 <= i < |rows| ==> rows[i].email != email) ==> r.id == issued + 1
  {
    var k := IndexOf(rows, HasEmail(email));
    Faculty(if k < |rows| then rows[k].id else issued + 1, name, department, email)
  }

  /** The table after an add; the written row is in it. */
  function Upsert(rows: seq<Faculty>, issued: nat, name: string, department: string, email: string): (s: seq<Faculty>)
    ensures UpsertRow(rows, issued, name, department, email) in s
  {
    ReplaceInto(rows, UpsertRow(rows, issued, name, department, email))
  }

  /** The AUTOINCREMENT counter after an add: SQLite raises it to the largest
      rowid inserted. It never goes down, covers the id written, and advances by
      at most one. */
  function IssuedAfterUpsert(rows: seq<Faculty>, issued: nat, name: string, department: string, email: string): (n: nat)
    ensures issued <= n && UpsertRow(rows, issued, name, department, email).id <= n
    ensures IdsIssued(rows, issued) ==> n <= issued + 1
  {
    var id := UpsertRow(rows, issued, name, department, email).id;
    if id > issued then id else issued
  }

  /** An add with an email no row holds appends one row whose id is larger than
      every id issued so far. */
  lemma UpsertFresh(rows: seq<Faculty>, issued: nat, name: string, department: string, email: string)
    requires WellFormed(rows, issued)
    requires forall i :: 0 <= i < |rows| ==> rows[i].email != email
    ensures UpsertRow(rows, issued, name, department, email) == Faculty(issued + 1, name, department, email)
    ensures Upsert(rows, issued, name, department, email) == rows + [Faculty(issued + 1, name, department, email)]
    ensures IssuedAfterUpsert(rows, issued, name, department, email) == issued + 1
    ensures WellFormed(Upsert(rows, issued, name, department, email), issued + 1)
  {
    var r := Faculty(issued + 1, name, department, email);
    assert IndexOf(rows, HasEmail(email)) == |rows|;
    assert UpsertRow(rows, issued, name, department, email) == r;
    WhereAll(rows, NoClash(r));
    InsertByIdLast(rows, r);
  }

  /** An add with an email held by row `k` keeps that row's id and place and
      replaces its name and department; no other row changes. */
  lemma UpsertExisting(rows: seq<Faculty>, issued: nat, name: string, department: string, email: string, k: nat)
    requires WellFormed(rows, issued)
    requires k < |rows| && rows[k].email == email
    ensures UpsertRow(rows, issued, name, department, email) == Faculty(rows[k].id, name, department, email)
    ensures Upsert(rows, issued, name, department, email) == rows[k := Faculty(rows[k].id, name, department, email)]
    ensures IssuedAfterUpsert(rows, issued, name, department, email) == issued
    ensures WellFormed(Upsert(rows, issued, name, department, email), issued)
  {
    var r := Faculty(rows[k].id, name, department, email);
    assert IndexOf(rows, HasEmail(email)) == k;
    forall i | 0 <= i < |rows| && i != k
      ensures NoClash(r)(rows[i])
    {
      if i < k {
        assert rows[i].id < rows[k].id && rows[i].email != rows[k].email;
      } else {
        assert rows[k].id < rows[i].id && rows[k].email != rows[i].email;
      }
    }
    WhereAllBut(rows, NoClash(r), k);
    InsertByIdAt(rows, k, r);
  }

  /** An add keeps the table well formed, and the added row is in it. */
  lemma UpsertWellFormed(rows: seq<Faculty>, issued: nat, name: string, department: string, email: string)
    requires WellFormed(rows, issued)
    ensures WellFormed(Upsert(rows, issued, name, department, email),
                       IssuedAfterUpsert(rows, issued, name, department, email))
    ensures UpsertRow(rows, issued, name, department, email) in Upsert(rows, issued, name, department, email)
  {
    var k := IndexOf(rows, HasEmail(email));
    if k < |rows| {
      UpsertExisting(rows, issued, name, department, email, k);
    } else {
      UpsertFresh(rows, issued, name, department, email);
    }
  }

  /** Two adds with the same email leave the table as one add with the later
      name and department would: one row for the email, never two. With equal
      values this is idempotence. */
  lemma UpsertLastWins(rows: seq<Faculty>, issued: nat, name1: string, department1: string,
                       name2: string, department2: string, email: string)
    requires WellFormed(rows, issued)
    ensures var once := Upsert(rows, issued, name1, department1, email);
            var issued1 := IssuedAfterUpsert(rows, issued, name1, department1, email);
            Upsert(once, issued1, name2, department2, email) == Upsert(rows, issued, name2, department2, email) &&
            IssuedAfterUpsert(once, issued1, name2, department2, email) ==
              IssuedAfterUpsert(rows, issued, name2, department2, email)
  {
    var k := IndexOf(rows, HasEmail(email));
    if k < |rows| {
      LastWinsExisting(rows, issued, name1, department1, name2, department2, email, k);
    } else {
      LastWinsFresh(rows, issued, name1, department1, name2, department2, email);
    }
  }

  lemma LastWinsExisting(rows: seq<Faculty>, issued: nat, name1: string, department1: string,
                         name2: string, department2: string, email: string, k: nat)
    requires WellFormed(rows, issued) && k < |rows| && rows[k].email == email
    ensures var once := Upsert(rows, issued, name1, department1, email);
            Upsert(once, issued, name2, department2, email) == Upsert(rows, issued, name2, department2, email) &&
            IssuedAfterUpsert(once, issued, name2, department2, email) == issued
  {
    UpsertExisting(rows, issued, name1, department1, email, k);
    UpsertExisting(rows, issued, name2, department2, email, k);
    var once := Upsert(rows, issued, name1, department1, email);
    UpsertExisting(once, issued, name2, department2, email, k);
  }

  lemma LastWinsFresh(rows: seq<Faculty>, issued: nat, name1: string, department1: string,
                      name2: string, department2: string, email: string)
    requires WellFormed(rows, issued)
    requires forall i :: 0 <= i < |rows| ==> rows[i].email != email
    ensures var once := Upsert(rows, issued, name1, department1, email);
            Upsert(once, issued + 1, name2, department2, email) == Upsert(rows, issued, name2, department2, email) &&
            IssuedAfterUpsert(once, issued + 1, name2, department2, email) == issued + 1
  {
    var r1 := Faculty(issued + 1, name1, department1, email);
    var r2 := Faculty(issued + 1, name2, department2, email);
    var once := Upsert(rows, issued, name1, department1, email);
    assert once == rows + [r1] && WellFormed(once, issued + 1) by {
      UpsertFresh(rows, issued, name1, department1, email);
    }
    assert Upsert(rows, issued, name2, department2, email) == rows + [r2] by {
      UpsertFresh(rows, issued, name2, department2, email);
    }
    assert Upsert(once, issued + 1, name2, department2, email) == once[|rows| := r2] &&
           IssuedAfterUpsert(once, issued + 1, name2, department2, email) == issued + 1 by {
      UpsertExisting(once, issued + 1, name2, department2, email, |rows|);
    }
    assert once[|rows| := r2] == rows + [r2];
  }

  /** Some row other than the one with id `id` already holds `email`: an update
      of row `id` to that email breaks the UNIQUE constraint. */
  predicate EmailHeldByOther(rows: seq<Faculty>, id: nat, email: string) {
    exists j :: 0 <= j < |rows| && rows[j].id != id && rows[j].email == email
  }

  /** `UPDATE faculty SET name=?, department=?, email=? WHERE id=?`, on a write
      that passes the UNIQUE check. */
  function SetById(rows: seq<Faculty>, id: nat, name: string, department: string, email: string): (s: seq<Faculty>)
    ensures |s| == |rows|
    ensures forall i :: 0 <= i < |rows| ==> s[i].id == rows[i].id
    ensures forall i :: 0 <= i < |rows| && rows[i].id != id ==> s[i] == rows[i]
    ensures forall x :: x in s && x.id == id ==> x == Faculty(id, name, department, email)
    ensures IdsAscending(rows) ==> IdsAscending(s)
  {
    seq(|rows|, i requires 0 <= i < |rows| =>
      if rows[i].id == id then Faculty(id, name, department, email) else rows[i])
  }

  /** An update of row `k` that passes the UNIQUE check overwrites all three
      fields of that row, keeps its id, changes no other row and keeps the
      table well formed. */
  lemma UpdateAt(rows: seq<Faculty>, issued: nat, k: nat, name: string, department: string, email: string)
    requires WellFormed(rows, issued) && k < |rows|
    requires !EmailHeldByOther(rows, rows[k].id, email)
    ensures SetById(rows, rows[k].id, name, department, email) == rows[k := Faculty(rows[k].id, name, department, email)]
    ensures WellFormed(rows[k := Faculty(rows[k].id, name, department, email)], issued)
  {
  }

  /** `DELETE FROM faculty WHERE id=?` keeps the rows with any other id. */
  function OtherId(id: nat): Faculty -> bool {
    (x: Faculty) => x.id != id
  }

  function Delete(rows: seq<Faculty>, id: nat): (s: seq<Faculty>)
    ensures |s| <= |rows|
    ensures forall x :: x in s <==> x in rows && x.id != id
  {
    Where(rows, OtherId(id))
  }

  /** A delete of the id of row `k` removes that row and keeps every other in place. */
  lemma DeleteAt(rows: seq<Faculty>, issued: nat, k: nat)
    requires WellFormed(rows, issued) && k < |rows|
    ensures Delete(rows, rows[k].id) == rows[..k] + rows[k + 1..]
    ensures WellFormed(rows[..k] + rows[k + 1..], issued)
  {
    WhereAllBut(rows, OtherId(rows[k].id), k);
    WhereWellFormed(rows, issued, OtherId(rows[k].id));
  }

  /** A delete of an id no row has is a no-op. */
  lemma DeleteMissing(rows: seq<Faculty>, id: nat)
    requires forall i :: 0 <= i < |rows| ==> rows[i].id != id
    ensures Delete(rows, id) == rows
  {
    WhereAll(rows, OtherId(id));
  }

  function InDepartment(department: string): Faculty -> bool {
    (x: Faculty) => x.department == department
  }

  /** `SELECT * FROM faculty WHERE department=?`, in table order. */
  function ByDepartment(rows: seq<Faculty>, department: string): (s: seq<Faculty>)
    ensures |s| <= |rows|
    ensures forall x :: x in s <==> x in rows && x.department == department
  {
    Where(rows, InDepartment(department))
  }

  /** `SELECT DISTINCT department FROM faculty`: each department once, in order of first appearance. */
  function Departments(rows: seq<Faculty>): (ds: seq<string>)
    ensures forall d :: d in ds <==> exists i :: 0 <= i < |rows| && rows[i].department == d
    ensures forall i, j :: 0 <= i < j < |ds| ==> ds[i] != ds[j]
    ensures |ds| <= |rows|
  {
    if rows == [] then []
    else
      var init := rows[..|rows| - 1];
      var ds := Departments(init);
      var d := rows[|rows| - 1].department;
      assert forall i :: 0 <= i < |init| ==> init[i] == rows[i];
      if d in ds then ds else ds + [d]
  }

  lemma {:induction false} WhereSnoc(rows: seq<Faculty>, x: Faculty, p: Faculty -> bool)
    ensures Where(rows + [x], p) == Where(rows, p) + (if p(x) then [x] else [])
  {
    if rows != [] {
      WhereSnoc(rows[1..], x, p);
      assert (rows + [x])[1..] == rows[1..] + [x];
    }
  }

  /** The number of rows the department pages for `ds` list together. */
  function CountIn(rows: seq<Faculty>, ds: seq<string>): nat {
    if ds == [] then 0 else |ByDepartment(rows, ds[0])| + CountIn(rows, ds[1..])
  }

  lemma {:induction false} CountInSnocRow(rows: seq<Faculty>, x: Faculty, ds: seq<string>)
    requires forall i, j :: 0 <= i < j < |ds| ==> ds[i] != ds[j]
    ensures CountIn(rows + [x], ds) == CountIn(rows, ds) + (if x.department in ds then 1 else 0)
  {
    if ds != [] {
      CountInSnocRow(rows, x, ds[1..]);
      WhereSnoc(rows, x, InDepartment(ds[0]));
      assert x.department == ds[0] ==> x.department !in ds[1..];
    }
  }

  lemma {:induction false} CountInSnocDepartment(rows: seq<Faculty>, ds: seq<string>, d: string)
    ensures CountIn(rows, ds + [d]) == CountIn(rows, ds) + |ByDepartment(rows, d)|
  {
    if ds != [] {
      CountInSnocDepartment(rows, ds[1..], d);
      assert (ds + [d])[1..] == ds[1..] + [d];
    }
  }

  /** The home page agrees with itself: summing the department pages over the
      distinct departments gives the row count, so every row is listed under
      exactly one department. */
  lemma {:induction false} DepartmentCountsSum(rows: seq<Faculty>)
    ensures CountIn(rows, Departments(rows)) == |rows|
    decreases |rows|
  {
    if rows != [] {
      var init := rows[..|rows| - 1];
      var x := rows[|rows| - 1];
      var ds := Departments(init);
      assert rows == init + [x];
      DepartmentCountsSum(init);
      CountInSnocRow(init, x, ds);
      if x.department !in ds {
        CountInSnocDepartment(rows, ds, x.department);
        WhereSnoc(init, x, InDepartment(x.department));
        WhereNone(init, InDepartment(x.department));
      }
    }
  }
}
