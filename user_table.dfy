/**
 The `users` table as a value: its constraints, the opt-in query the
 notification dispatch runs, and the effect of the settings statement.
 */
module UserTable {
  import opened Records

  predicate IdsAscending(users: seq<User>) {
    forall i, j :: 0 <= i < j < |users| ==> users[i].id < users[j].id
  }

  predicate IdsIssued(users: seq<User>, issued: nat) {
    forall i :: 0 <= i < |users| ==> 1 <= users[i].id <= issued
  }

  /** The UNIQUE constraints on `username` and on `email`. */
  predicate UsernamesUnique(users: seq<User>) {
    forall i, j :: 0 <= i < j < |users| ==> users[i].username != users[j].username
  }

  predicate EmailsUnique(users: seq<User>) {
    forall i, j :: 0 <= i < j < |users| ==> users[i].email != users[j].email
  }

  /** The flag is only ever written as 1 (the column default) or as a boolean,
      which SQLite stores as 1 or 0. */
  predicate FlagsBinary(users: seq<User>) {
    forall i :: 0 <= i < |users| ==> users[i].receiveNotifications == 0 || users[i].receiveNotifications == 1
  }

  predicate WellFormed(users: seq<User>, issued: nat) {
    IdsAscending(users) && IdsIssued(users, issued) && UsernamesUnique(users) && EmailsUnique(users) && FlagsBinary(users)
  }

  /** Some user already holds `username` or `email`: an insert of them breaks a UNIQUE constraint. */
  predicate Taken(users: seq<User>, username: string, email: string) {
    exists i :: 0 <= i < |users| && (users[i].username == username || users[i].email == email)
  }

  /** A signup that passes the UNIQUE checks appends one opted-in user with a
      fresh id and keeps the table well formed. */
  lemma SignupWellFormed(users: seq<User>, issued: nat, username: string, password: string, email: string)
    requires WellFormed(users, issued) && !Taken(users, username, email)
    ensures WellFormed(users + [User(issued + 1, username, password, email, 1)], issued + 1)
  {
  }

  /** The condition `WHERE id = ?`. */
  function HasId(id: nat): User -> bool {
    (u: User) => u.id == id
  }

  /** `SELECT email FROM users WHERE receive_notifications = 1`, in table order. */
  function OptedInEmails(users: seq<User>): (es: seq<string>)
    ensures |es| <= |users|
    ensures forall e :: e in es <==>
              exists i :: 0 <= i < |users| && users[i].receiveNotifications == 1 && users[i].email == e
  {
    if users == [] then []
    else
      var rest := OptedInEmails(users[1..]);
      assert forall i :: 1 <= i < |users| ==> users[i] == users[1..][i - 1];
      (if users[0].receiveNotifications == 1 then [users[0].email] else []) + rest
  }

  /** The opt-in query returns the addresses in table order, one per opted-in
      user: appending a user appends their address when their flag is 1 and
      nothing otherwise. With `OptedInEmails([]) == []` this fixes the whole result. */
  lemma {:induction false} OptedInEmailsSnoc(users: seq<User>, u: User)
    ensures OptedInEmails(users + [u]) == OptedInEmails(users) + (if u.receiveNotifications == 1 then [u.email] else [])
  {
    if users != [] {
      OptedInEmailsSnoc(users[1..], u);
      assert (users + [u])[1..] == users[1..] + [u];
    }
  }

  /** With emails unique, a user whose flag is not 1 is not among the opted-in addresses. */
  lemma OptedOutExcluded(users: seq<User>, k: nat)
    requires EmailsUnique(users) && k < |users| && users[k].receiveNotifications != 1
    ensures users[k].email !in OptedInEmails(users)
  {
  }

  /** `UPDATE users SET receive_notifications=? WHERE id=?`. */
  function SetFlag(users: seq<User>, id: nat, flag: int): (s: seq<User>)
    ensures |s| == |users|
    ensures forall i :: 0 <= i < |users| ==>
              s[i].id == users[i].id && s[i].username == users[i].username &&
              s[i].password == users[i].password && s[i].email == users[i].email
    ensures forall i :: 0 <= i < |users| && users[i].id != id ==> s[i] == users[i]
    ensures forall x :: x in s && x.id == id ==> x.receiveNotifications == flag
  {
    seq(|users|, i requires 0 <= i < |users| =>
      if users[i].id == id then users[i].(receiveNotifications := flag) else users[i])
  }

  /** The settings statement on user `k` rewrites that user's flag and nothing
      else: it keeps the table well formed, the user is opted in exactly when
      the flag written is 1, and every other user keeps their opt-in state. */
  lemma SetFlagAt(users: seq<User>, issued: nat, k: nat, on: bool)
    requires WellFormed(users, issued) && k < |users|
    ensures var flag := if on then 1 else 0;
            var s := SetFlag(users, users[k].id, flag);
            s == users[k := users[k].(receiveNotifications := flag)] &&
            WellFormed(s, issued) &&
            (users[k].email in OptedInEmails(s) <==> on) &&
            forall j :: 0 <= j < |users| && j != k ==>
              (users[j].email in OptedInEmails(s) <==> users[j].email in OptedInEmails(users))
  {
    var flag := if on then 1 else 0;
    var s := SetFlag(users, users[k].id, flag);
    assert s == users[k := users[k].(receiveNotifications := flag)];
    if !on {
      OptedOutExcluded(s, k);
    } else {
      assert s[k].receiveNotifications == 1 && s[k].email == users[k].email;
    }
    forall j | 0 <= j < |users| && j != k
      ensures users[j].email in OptedInEmails(s) <==> users[j].email in OptedInEmails(users)
    {
      if users[j].receiveNotifications == 1 {
        assert s[j] == users[j];
      } else {
        OptedOutExcluded(users, j);
        OptedOutExcluded(s, j);
      }
    }
  }
}
