/**
 The rows of the three tables of the faculty database, the outcomes of the
 operations on them, and the first-match search the lookups share. Every table has an `INTEGER PRIMARY KEY AUTOINCREMENT` id;
 a table is kept as a sequence of rows in id (rowid) order, which is the order a
 full scan of the table returns them in.
 */
module Records {

  /** A row of the `faculty` table; `email` carries a UNIQUE constraint. */
  datatype Faculty = Faculty(id: nat, name: string, department: string, email: string)

  /** A row of the `users` table. `password` is the stored hash, kept opaque;
      `receiveNotifications` is the integer column that defaults to 1. */
  datatype User = User(id: nat, username: string, password: string, email: string, receiveNotifications: int)

  /** A row of the `notifications` table (the `date_sent` timestamp is not modelled). */
  datatype Notification = Notification(id: nat, subject: string, body: string, recipientEmail: string)

  datatype Option<T> = None | Some(value: T)

  /** Why a request changed nothing: a missing row, or a UNIQUE constraint the
      write would break (SQLite's IntegrityError). */
  datatype Error = NotFound | ConstraintViolation

  datatype Result<T> = Ok(value: T) | Err(error: Error)

  /** Position of the first element satisfying `p`, or `|s|` if none does: the
      row a `WHERE` lookup on one column finds in a table scan. */
  function IndexOf<T>(s: seq<T>, p: T -> bool): (k: nat)
    ensures k <= |s|
    ensures k < |s| ==> p(s[k])
    ensures forall i :: 0 <= i < k ==> !p(s[i])
  {
    if s == [] then 0
    else if p(s[0]) then 0
    else 1 + IndexOf(s[1..], p)
  }
}
