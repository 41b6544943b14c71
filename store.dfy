/**
 The database behind the routes, as one object holding the three tables and
 their AUTOINCREMENT counters (SQLite's `sqlite_sequence`: the largest id each
 table has issued). Each route that writes becomes a method; its contract gives
 the whole new state and names the fields it does not touch through its
 `modifies` frame.
 */
module Store {
  import opened Records
  import FacultyTable
  import UserTable
  import Dispatch

  class Store {
    var faculty: seq<Faculty>
    var facultySeq: nat
    /** Every faculty id ever issued, including those of rows since deleted. */
    ghost var facultyIdsIssued: set<nat>
    var users: seq<User>
    var userSeq: nat
    var notifications: seq<Notification>
    var notificationSeq: nat

    ghost predicate Valid()
      reads this
    {
      FacultyTable.WellFormed(faculty, facultySeq) &&
      (forall x :: x in facultyIdsIssued ==> 1 <= x <= facultySeq) &&
      FacultyTable.IdsIn(faculty, facultyIdsIssued) &&
      UserTable.WellFormed(users, userSeq) &&
      Dispatch.AuditWellFormed(notifications, notificationSeq)
    }

    /** A freshly created database: three empty tables. */
    constructor ()
      ensures Valid()
      ensures faculty == [] && users == [] && notifications == []
      ensures facultySeq == 0 && userSeq == 0 && notificationSeq == 0 && facultyIdsIssued == {}
    {
      faculty, facultySeq, facultyIdsIssued := [], 0, {};
      users, userSeq := [], 0;
      notifications, notificationSeq := [], 0;
    }

    /** The add route's `INSERT OR REPLACE` statement, an upsert keyed on email. */
    method InsertOrReplaceFaculty(name: string, department: string, email: string) returns (id: nat)
      requires Valid()
      modifies this`faculty, this`facultySeq, this`facultyIdsIssued
      ensures Valid()
      ensures faculty == FacultyTable.Upsert(old(faculty), old(facultySeq), name, department, email)
      ensures facultySeq == FacultyTable.IssuedAfterUpsert(old(faculty), old(facultySeq), name, department, email)
      ensures Faculty(id, name, department, email) in faculty
      ensures var k := IndexOf(old(faculty), FacultyTable.HasEmail(email));
              k < |old(faculty)| ==>
                id == old(faculty)[k].id &&
                faculty == old(faculty)[k := Faculty(id, name, department, email)] &&
                facultySeq == old(facultySeq) && facultyIdsIssued == old(facultyIdsIssued)
      ensures var k := IndexOf(old(faculty), FacultyTable.HasEmail(email));
              k == |old(faculty)| ==>
                id == old(facultySeq) + 1 &&
                (forall x :: x in old(facultyIdsIssued) ==> x < id) &&
                faculty == old(faculty) + [Faculty(id, name, department, email)] &&
                facultySeq == id && facultyIdsIssued == old(facultyIdsIssued) + {id}
    {
      var k := IndexOf(faculty, FacultyTable.HasEmail(email));
      if k < |faculty| {
        id := faculty[k].id;
        FacultyTable.UpsertExisting(faculty, facultySeq, name, department, email, k);
        FacultyTable.IdsInOverwrite(faculty, facultyIdsIssued, k, Faculty(id, name, department, email));
        faculty := faculty[k := Faculty(id, name, department, email)];
      } else {
        id := facultySeq + 1;
        FacultyTable.UpsertFresh(faculty, facultySeq, name, department, email);
        FacultyTable.IdsInAppend(faculty, facultyIdsIssued, Faculty(id, name, department, email));
        faculty := faculty + [Faculty(id, name, department, email)];
        facultySeq := id;
        facultyIdsIssued := facultyIdsIssued + {id};
      }
    }

    /** Sends the notification for (name, department, email) to the
        administrator and then to each opted-in user, through the transport
        oracle `mailer`. The first failing send aborts the remaining ones and
        the error is swallowed; the audit record is appended only when every
        send succeeded. Returns the addresses handed to the transport. */
    method SendNotificationEmail(name: string, department: string, email: string, mailer: nat -> bool)
      returns (attempted: seq<string>)
      requires Valid()
      modifies this`notifications, this`notificationSeq
      ensures Valid()
      ensures attempted == Dispatch.Attempted(Dispatch.Recipients(users), mailer)
      ensures Dispatch.AllDelivered(|Dispatch.Recipients(users)|, mailer) ==>
                notifications == old(notifications) +
                  [Notification(old(notificationSeq) + 1, Dispatch.Subject,
                                Dispatch.Body(name, department, email), Dispatch.AdminEmail)] &&
                notificationSeq == old(notificationSeq) + 1
      ensures !Dispatch.AllDelivered(|Dispatch.Recipients(users)|, mailer) ==>
                notifications == old(notifications) && notificationSeq == old(notificationSeq)
    {
      var body := Dispatch.Body(name, department, email);
      ghost var rs := Dispatch.Recipients(users);
      attempted := [Dispatch.AdminEmail];
      if !mailer(0) {
        Dispatch.AttemptedStopsAt(rs, mailer, 0);
        return;
      }
      var optedIn := UserTable.OptedInEmails(users);
      var i := 0;
      while i < |optedIn|
        invariant 0 <= i <= |optedIn|
        invariant attempted == rs[..i + 1]
        invariant forall j :: 0 <= j <= i ==> mailer(j)
      {
        attempted := attempted + [optedIn[i]];
        if !mailer(i + 1) {
          Dispatch.AttemptedStopsAt(rs, mailer, i + 1);
          return;
        }
        i := i + 1;
      }
      notificationSeq := notificationSeq + 1;
      notifications := notifications + [Notification(notificationSeq, Dispatch.Subject, body, Dispatch.AdminEmail)];
    }

    /** The add route: the upsert is committed, then the notification is
        dispatched; whatever the sends do, the row stays written. */
    method AddFaculty(name: string, department: string, email: string, mailer: nat -> bool)
      returns (id: nat, attempted: seq<string>)
      requires Valid()
      modifies this`faculty, this`facultySeq, this`facultyIdsIssued, this`notifications, this`notificationSeq
      ensures Valid()
      ensures faculty == FacultyTable.Upsert(old(faculty), old(facultySeq), name, department, email)
      ensures facultySeq == FacultyTable.IssuedAfterUpsert(old(faculty), old(facultySeq), name, department, email)
      ensures Faculty(id, name, department, email) in faculty
      ensures var k := IndexOf(old(faculty), FacultyTable.HasEmail(email));
              k < |old(faculty)| ==>
                id == old(faculty)[k].id &&
                faculty == old(faculty)[k := Faculty(id, name, department, email)] &&
                facultySeq == old(facultySeq) && facultyIdsIssued == old(facultyIdsIssued)
      ensures var k := IndexOf(old(faculty), FacultyTable.HasEmail(email));
              k == |old(faculty)| ==>
                id == old(facultySeq) + 1 &&
                (forall x :: x in old(facultyIdsIssued) ==> x < id) &&
                faculty == old(faculty) + [Faculty(id, name, department, email)] &&
                facultySeq == id && facultyIdsIssued == old(facultyIdsIssued) + {id}
      ensures attempted == Dispatch.Attempted(Dispatch.Recipients(users), mailer)
      ensures notifications ==
                if Dispatch.AllDelivered(|Dispatch.Recipients(users)|, mailer)
                then old(notifications) + [Notification(old(notificationSeq) + 1, Dispatch.Subject,
                                                        Dispatch.Body(name, department, email), Dispatch.AdminEmail)]
                else old(notifications)
      ensures notificationSeq ==
                if Dispatch.AllDelivered(|Dispatch.Recipients(users)|, mailer)
                then old(notificationSeq) + 1 else old(notificationSeq)
    {
      id := InsertOrReplaceFaculty(name, department, email);
      attempted := SendNotificationEmail(name, department, email, mailer);
    }

    /** The update route: not-found when no row has `id`; a constraint error
        when another row holds `email`; otherwise all three fields of that row
        are overwritten. No notification is sent. */
    method UpdateFaculty(id: nat, name: string, department: string, email: string) returns (r: Result<Faculty>)
      requires Valid()
      modifies this`faculty
      ensures Valid()
      ensures FacultyTable.FindById(old(faculty), id).None? ==> r == Err(NotFound)
      ensures FacultyTable.FindById(old(faculty), id).Some? && FacultyTable.EmailHeldByOther(old(faculty), id, email) ==>
                r == Err(ConstraintViolation)
      ensures FacultyTable.FindById(old(faculty), id).Some? && !FacultyTable.EmailHeldByOther(old(faculty), id, email) ==>
                r.Ok?
      ensures r.Err? ==> faculty == old(faculty)
      ensures r.Ok? ==>
                r.value == Faculty(id, name, department, email) &&
                faculty == FacultyTable.SetById(old(faculty), id, name, department, email) &&
                var k := IndexOf(old(faculty), FacultyTable.HasId(id));
                k < |old(faculty)| && faculty == old(faculty)[k := r.value]
    {
      var k := IndexOf(faculty, FacultyTable.HasId(id));
      if k == |faculty| {
        return Err(NotFound);
      }
      if FacultyTable.EmailHeldByOther(faculty, id, email) {
        return Err(ConstraintViolation);
      }
      var row := Faculty(id, name, department, email);
      FacultyTable.UpdateAt(faculty, facultySeq, k, name, department, email);
      FacultyTable.IdsInOverwrite(faculty, facultyIdsIssued, k, row);
      faculty := faculty[k := row];
      r := Ok(row);
    }

    /** The delete route: removes the row with `id` if there is one; a missing id is not an error. */
    method DeleteFaculty(id: nat)
      requires Valid()
      modifies this`faculty
      ensures Valid()
      ensures faculty == FacultyTable.Delete(old(faculty), id)
      ensures var k := IndexOf(old(faculty), FacultyTable.HasId(id));
              faculty == if k < |old(faculty)| then old(faculty)[..k] + old(faculty)[k + 1..] else old(faculty)
    {
      var k := IndexOf(faculty, FacultyTable.HasId(id));
      if k < |faculty| {
        FacultyTable.DeleteAt(faculty, facultySeq, k);
        FacultyTable.IdsInCut(faculty, facultyIdsIssued, k);
        faculty := faculty[..k] + faculty[k + 1..];
      } else {
        FacultyTable.DeleteMissing(faculty, id);
      }
    }

    /** The home page's three queries: every row, the distinct departments and
        the row count, which is also the number of rows the department pages
        list together. */
    method Home() returns (faculties: seq<Faculty>, departments: seq<string>, count: nat)
      ensures faculties == faculty
      ensures departments == FacultyTable.Departments(faculty)
      ensures count == |faculty|
      ensures FacultyTable.CountIn(faculties, departments) == count
    {
      FacultyTable.DepartmentCountsSum(faculty);
      faculties := faculty;
      departments := FacultyTable.Departments(faculty);
      count := |faculty|;
    }

    /** The department page: the rows of one department, in table order. */
    method DepartmentFaculty(department: string) returns (rows: seq<Faculty>)
      ensures rows == FacultyTable.ByDepartment(faculty, department)
    {
      rows := FacultyTable.ByDepartment(faculty, department);
    }

    /** The signup route's insert. `passwordHash` stands for the salted hash the
        route computes. A username or email already held breaks a UNIQUE
        constraint and adds no user; otherwise the new user is opted in. */
    method Signup(username: string, passwordHash: string, email: string) returns (r: Result<nat>)
      requires Valid()
      modifies this`users, this`userSeq
      ensures Valid()
      ensures UserTable.Taken(old(users), username, email) ==>
                r == Err(ConstraintViolation) && users == old(users) && userSeq == old(userSeq)
      ensures !UserTable.Taken(old(users), username, email) ==>
                r == Ok(old(userSeq) + 1) && userSeq == old(userSeq) + 1 &&
                users == old(users) + [User(old(userSeq) + 1, username, passwordHash, email, 1)]
    {
      if UserTable.Taken(users, username, email) {
        return Err(ConstraintViolation);
      }
      UserTable.SignupWellFormed(users, userSeq, username, passwordHash, email);
      userSeq := userSeq + 1;
      users := users + [User(userSeq, username, passwordHash, email, 1)];
      r := Ok(userSeq);
    }

    /** The settings route for the user `userId`: stores 1 when the box is
        ticked and 0 otherwise, in that user's row only. Returns the row as it
        was read before the write; an unknown user changes nothing. */
    method Settings(userId: nat, on: bool) returns (r: Result<User>)
      requires Valid()
      modifies this`users
      ensures Valid()
      ensures var k := IndexOf(old(users), UserTable.HasId(userId));
              if k == |old(users)| then r == Err(NotFound) && users == old(users)
              else r == Ok(old(users)[k]) &&
                   users == UserTable.SetFlag(old(users), userId, if on then 1 else 0) &&
                   users == old(users)[k := old(users)[k].(receiveNotifications := if on then 1 else 0)]
    {
      var k := IndexOf(users, UserTable.HasId(userId));
      if k == |users| {
        return Err(NotFound);
      }
      r := Ok(users[k]);
      UserTable.SetFlagAt(users, userSeq, k, on);
      users := UserTable.SetFlag(users, userId, if on then 1 else 0);
    }
  }

  /** Alice signs up and stays opted in; Bob signs up and opts out. */
  method TwoUsersOneOptedOut() returns (store: Store)
    ensures fresh(store) && store.Valid()
    ensures store.users == [User(1, "alice", "hash-a", "alice@u.edu", 1), User(2, "bob", "hash-b", "bob@u.edu", 0)]
    ensures store.faculty == [] && store.notifications == []
    ensures store.facultySeq == 0 && store.notificationSeq == 0
  {
    store := new Store();
    var alice := store.Signup("alice", "hash-a", "alice@u.edu");
    var bob := store.Signup("bob", "hash-b", "bob@u.edu");
    assert alice == Ok(1) && bob == Ok(2);
    assert store.users == [User(1, "alice", "hash-a", "alice@u.edu", 1), User(2, "bob", "hash-b", "bob@u.edu", 1)];
    assert IndexOf(store.users, UserTable.HasId(2)) == 1;
    var seen := store.Settings(2, false);
  }

  /** With Bob opted out, adding one faculty member over a working transport
      writes one row, sends to the administrator and to Alice only, and appends
      one audit record addressed to the administrator. */
  method OptInWalkthrough() {
    var store := TwoUsersOneOptedOut();
    assert UserTable.OptedInEmails(store.users) == ["alice@u.edu"];
    assert IndexOf(store.faculty, FacultyTable.HasEmail("x@u.edu")) == 0;
    var id, sent := store.AddFaculty("Dr. X", "CS", "x@u.edu", (j: nat) => true);
    assert sent == [Dispatch.AdminEmail, "alice@u.edu"];
    assert |store.faculty| == 1 && |store.notifications| == 1;
    assert store.notifications[0].recipientEmail == Dispatch.AdminEmail;
  }

  /** A transport that rejects the second send (Alice's copy): the faculty row
      stays written, the administrator's copy went out, and no audit record is
      appended. */
  method FailedSendWalkthrough() {
    var store := TwoUsersOneOptedOut();
    var mailer := (j: nat) => j == 0;
    assert UserTable.OptedInEmails(store.users) == ["alice@u.edu"];
    assert Dispatch.Recipients(store.users) == [Dispatch.AdminEmail, "alice@u.edu"];
    assert !Dispatch.AllDelivered(2, mailer) by {
      assert !mailer(1);
    }
    assert IndexOf(store.faculty, FacultyTable.HasEmail("y@u.edu")) == 0;
    var id, sent := store.AddFaculty("Dr. Y", "EE", "y@u.edu", mailer);
    assert sent == [Dispatch.AdminEmail, "alice@u.edu"];
    assert store.faculty == [Faculty(id, "Dr. Y", "EE", "y@u.edu")] && id == 1;
    assert store.notifications == [];
  }
}
