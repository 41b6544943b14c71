/**
 The notification sent when a faculty member is added: its fixed subject and
 administrator address, the body composed from the three fields, the order of
 the sends, and how far a run of sends gets when the mail transport fails.

 The transport is an oracle `mailer`: `mailer(j)` is whether the `j`-th send
 call of one dispatch succeeds (call 0 is the administrator's copy).
 */
module Dispatch {
  import opened Records
  import UserTable

  const AdminEmail := "admin_email@example.com"
  const Subject := "New Faculty Added"

  const Greeting := "\n    Hello Admin,\n\n    A new faculty member has been added to the system:\n\n    Name: "
  const DepartmentLabel := "\n    Department: "
  const EmailLabel := "\n    Email: "
  const Closing := "\n\n    Regards,\n    Faculty Management System\n    "

  /** The message body: the template with the three fields filled in. It carries
      each field verbatim, at a position fixed by the lengths of the fields
      before it. */
  function Body(name: string, department: string, email: string): (b: string)
    ensures var n := |Greeting|;
            var d := n + |name| + |DepartmentLabel|;
            var e := d + |department| + |EmailLabel|;
            |b| == e + |email| + |Closing| &&
            b[n..n + |name|] == name && b[d..d + |department|] == department && b[e..e + |email|] == email
  {
    Greeting + name + DepartmentLabel + department + EmailLabel + email + Closing
  }

  /** The addresses of one dispatch in send order: the administrator, then each
      opted-in user in table order. */
  function Recipients(users: seq<User>): (rs: seq<string>)
    ensures |rs| >= 1 && rs[0] == AdminEmail
    ensures forall e :: e in rs[1..] <==>
              exists i :: 0 <= i < |users| && users[i].receiveNotifications == 1 && users[i].email == e
  {
    [AdminEmail] + UserTable.OptedInEmails(users)
  }

  /** Send order follows table order: a user added at the end of the table is
      sent to last, once, exactly when their flag is 1. */
  lemma RecipientsSnoc(users: seq<User>, u: User)
    ensures Recipients(users + [u]) == Recipients(users) + (if u.receiveNotifications == 1 then [u.email] else [])
  {
    UserTable.OptedInEmailsSnoc(users, u);
  }

  predicate AllDelivered(n: nat, mailer: nat -> bool) {
    forall j :: 0 <= j < n ==> mailer(j)
  }

  /** The first failing send call at or after `from`, or `n` if calls `from` to `n - 1` all succeed. */
  function FirstFailure(mailer: nat -> bool, from: nat, n: nat): (k: nat)
    requires from <= n
    ensures from <= k <= n
    ensures forall j :: from <= j < k ==> mailer(j)
    ensures k < n ==> !mailer(k)
    decreases n - from
  {
    if from == n then n
    else if !mailer(from) then from
    else FirstFailure(mailer, from + 1, n)
  }

  /** The addresses one dispatch actually hands to the transport: every address
      up to and including the first whose send fails, after which the loop is
      aborted. */
  function Attempted(rs: seq<string>, mailer: nat -> bool): (sent: seq<string>)
    ensures |sent| <= |rs| && sent == rs[..|sent|]
    ensures rs != [] ==> sent != []
    ensures forall j :: 0 <= j < |sent| - 1 ==> mailer(j)
    ensures AllDelivered(|rs|, mailer) <==> sent == rs && (rs == [] || mailer(|rs| - 1))
    ensures |sent| < |rs| ==> !mailer(|sent| - 1)
  {
    var k := FirstFailure(mailer, 0, |rs|);
    if k < |rs| then rs[..k + 1] else rs
  }

  /** The send calls stop at call `k` exactly when calls before it succeed and call `k` fails. */
  lemma AttemptedStopsAt(rs: seq<string>, mailer: nat -> bool, k: nat)
    requires k < |rs| && !mailer(k)
    requires forall j :: 0 <= j < k ==> mailer(j)
    ensures Attempted(rs, mailer) == rs[..k + 1]
  {
  }

  /** A user whose flag is not 1 gets no copy, however the sends turn out,
      unless their address is the administrator's. */
  lemma OptedOutGetsNothing(users: seq<User>, k: nat, mailer: nat -> bool)
    requires UserTable.EmailsUnique(users) && k < |users|
    requires users[k].receiveNotifications != 1 && users[k].email != AdminEmail
    ensures users[k].email !in Attempted(Recipients(users), mailer)
  {
    UserTable.OptedOutExcluded(users, k);
  }

  /** When every send succeeds, the administrator and every opted-in user get a copy. */
  lemma AllDeliveredReachesEveryone(users: seq<User>, k: nat, mailer: nat -> bool)
    requires AllDelivered(|Recipients(users)|, mailer)
    requires k < |users| && users[k].receiveNotifications == 1
    ensures Attempted(Recipients(users), mailer)[0] == AdminEmail
    ensures users[k].email in Attempted(Recipients(users), mailer)
  {
  }

  /** After the settings statement clears user `k`'s flag, no later dispatch
      sends them a copy, unless their address is the administrator's. */
  lemma OptOutStopsDelivery(users: seq<User>, issued: nat, k: nat, mailer: nat -> bool)
    requires UserTable.WellFormed(users, issued) && k < |users| && users[k].email != AdminEmail
    ensures users[k].email !in Attempted(Recipients(UserTable.SetFlag(users, users[k].id, 0)), mailer)
  {
    UserTable.SetFlagAt(users, issued, k, false);
    var s := UserTable.SetFlag(users, users[k].id, 0);
    OptedOutGetsNothing(s, k, mailer);
  }

  /** Every audit record is an administrator copy of a faculty notification with
      its own id, and ids increase in append order. */
  predicate AuditWellFormed(log: seq<Notification>, issued: nat) {
    (forall i, j :: 0 <= i < j < |log| ==> log[i].id < log[j].id) &&
    (forall i :: 0 <= i < |log| ==> 1 <= log[i].id <= issued) &&
    (forall i :: 0 <= i < |log| ==> log[i].subject == Subject && log[i].recipientEmail == AdminEmail)
  }
}
