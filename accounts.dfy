/** The actions of the endpoint that write to `users`: two registrations, a
    parent creating a child account, manual login (which may bind a device)
    and a parent's remote logout of a child. Each validates its trimmed input
    and then either answers with an error and leaves the table as it was, or
    makes exactly one insert or one update. */
module Accounts {
  import opened PhpTrim
  import opened Users
  import opened Sessions

  /** The field is empty once trimmed (a missing field arrives as ""). */
  predicate Blank(field: string) {
    Trim(field) == []
  }

  /** The `users` table and its auto-increment counter. */
  class UserTable {
    var rows: seq<User>
    var nextId: int

    ghost predicate Valid()
      reads this
    {
      TableInvariant(rows, nextId)
    }

    constructor ()
      ensures Valid() && rows == [] && nextId == 1
    {
      rows := [];
      nextId := 1;
    }

    /** `register_student`: all five fields are required; the username must be
        new; the row is a student bound to the given device and linked to the
        parent named by `parentUsername` when there is one. */
    method RegisterStudent(fullName: string, username: string, password: string,
                           gradeLevel: string, deviceId: string, parentUsername: string)
      returns (resp: Response)
      requires Valid()
      modifies this
      ensures Valid()
      ensures (Blank(fullName) || Blank(username) || Blank(password) || Blank(gradeLevel) || Blank(deviceId)) ==>
        resp == Fail(400, MissingData) && unchanged(this)
      ensures !(Blank(fullName) || Blank(username) || Blank(password) || Blank(gradeLevel) || Blank(deviceId)) &&
              UsernameInUse(old(rows), Trim(username)) ==>
        resp == Fail(400, UsernameTaken) && unchanged(this)
      ensures resp.status == Success <==>
        !(Blank(fullName) || Blank(username) || Blank(password) || Blank(gradeLevel) || Blank(deviceId)) &&
        !UsernameInUse(old(rows), Trim(username))
      ensures resp.status == Success ==>
        var u := User(old(nextId), Trim(fullName), Trim(username), Trim(password), Student,
                      Some(Trim(gradeLevel)), Some(Trim(deviceId)), ParentIdFor(old(rows), Trim(parentUsername)));
        rows == old(rows) + [u] && nextId == old(nextId) + 1 &&
        resp == Response(Success, 200, NoMessage,
                         NewStudent(u.id, u.fullName, u.username, Trim(gradeLevel), Trim(deviceId)))
    {
      var fn, un, pw, gl, did := Trim(fullName), Trim(username), Trim(password), Trim(gradeLevel), Trim(deviceId);
      var pun := Trim(parentUsername);
      if fn == [] || un == [] || pw == [] || gl == [] || did == [] {
        return Fail(400, MissingData);
      }
      if UsernameIndex(rows, un).Some? {
        return Fail(400, UsernameTaken);
      }
      UsernameIndexFindsUse(rows, un);
      var parentId := ParentIdFor(rows, pun);
      var u := User(nextId, fn, un, pw, Student, Some(gl), Some(did), parentId);
      InsertKeepsInvariant(rows, nextId, u);
      rows := rows + [u];
      nextId := nextId + 1;
      resp := Response(Success, 200, NoMessage, NewStudent(u.id, fn, un, gl, did));
    }

    /** `register_parent`: name, username and password are required; the
        username must be new; the row is a parent with no grade, device or
        parent of its own. */
    method RegisterParent(fullName: string, username: string, password: string)
      returns (resp: Response)
      requires Valid()
      modifies this
      ensures Valid()
      ensures (Blank(fullName) || Blank(username) || Blank(password)) ==>
        resp == Fail(400, MissingData) && unchanged(this)
      ensures !(Blank(fullName) || Blank(username) || Blank(password)) && UsernameInUse(old(rows), Trim(username)) ==>
        resp == Fail(400, UsernameTaken) && unchanged(this)
      ensures resp.status == Success <==>
        !(Blank(fullName) || Blank(username) || Blank(password)) && !UsernameInUse(old(rows), Trim(username))
      ensures resp.status == Success ==>
        rows == old(rows) + [User(old(nextId), Trim(fullName), Trim(username), Trim(password), Parent, None, None, None)] &&
        nextId == old(nextId) + 1 &&
        resp == Response(Success, 200, NoMessage, NewParent(old(nextId), Trim(username)))
    {
      var fn, un, pw := Trim(fullName), Trim(username), Trim(password);
      if fn == [] || un == [] || pw == [] {
        return Fail(400, MissingData);
      }
      if UsernameIndex(rows, un).Some? {
        return Fail(400, UsernameTaken);
      }
      UsernameIndexFindsUse(rows, un);
      var id := nextId;
      InsertKeepsInvariant(rows, nextId, User(id, fn, un, pw, Parent, None, None, None));
      rows := rows + [User(id, fn, un, pw, Parent, None, None, None)];
      nextId := nextId + 1;
      resp := Response(Success, 200, NoMessage, NewParent(id, un));
    }

    /** `create_child_account` (the first of the two cases with that name; the
        second can never run): a positive parent id and all four fields are
        required; the username must be new; the row is a student linked to
        `parentId`, which is not checked to name a parent, and bound to no
        device. */
    method CreateChildAccount(parentId: int, fullName: string, username: string,
                              password: string, gradeLevel: string)
      returns (resp: Response)
      requires Valid()
      modifies this
      ensures Valid()
      ensures parentId <= 0 || (Blank(fullName) || Blank(username) || Blank(password) || Blank(gradeLevel)) ==>
        resp == Fail(400, MissingData) && unchanged(this)
      ensures parentId > 0 && !(Blank(fullName) || Blank(username) || Blank(password) || Blank(gradeLevel)) &&
              UsernameInUse(old(rows), Trim(username)) ==>
        resp == Fail(400, UsernameTaken) && unchanged(this)
      ensures resp.status == Success <==>
        parentId > 0 && !(Blank(fullName) || Blank(username) || Blank(password) || Blank(gradeLevel)) &&
        !UsernameInUse(old(rows), Trim(username))
      ensures resp.status == Success ==>
        rows == old(rows) + [User(old(nextId), Trim(fullName), Trim(username), Trim(password), Student,
                                  Some(Trim(gradeLevel)), None, Some(parentId))] &&
        nextId == old(nextId) + 1 &&
        resp == Response(Success, 200, ChildAdded, NoData)
    {
      var fn, un, pw, gl := Trim(fullName), Trim(username), Trim(password), Trim(gradeLevel);
      if parentId <= 0 || fn == [] || un == [] || pw == [] || gl == [] {
        return Fail(400, MissingData);
      }
      if UsernameIndex(rows, un).Some? {
        return Fail(400, UsernameTaken);
      }
      UsernameIndexFindsUse(rows, un);
      InsertKeepsInvariant(rows, nextId, User(nextId, fn, un, pw, Student, Some(gl), None, Some(parentId)));
      rows := rows + [User(nextId, fn, un, pw, Student, Some(gl), None, Some(parentId))];
      nextId := nextId + 1;
      resp := Response(Success, 200, ChildAdded, NoData);
    }

    /** `login_student_manual`, for parents and students alike: errors (code
        200) for a blank username, an unknown one, or a stored password that is
        not exactly the trimmed input. On success the row's device id is
        rebound to the trimmed device id if that is not blank, nothing else
        changes, and the (updated) row is returned. */
    method LoginStudentManual(username: string, password: string, deviceId: string)
      returns (resp: Response)
      requires Valid()
      modifies this
      ensures Valid()
      ensures Trim(username) == [] ==> resp == Fail(200, UsernameRequired) && unchanged(this)
      ensures Trim(username) != [] && !UsernameInUse(old(rows), Trim(username)) ==>
        resp == Fail(200, WrongUsername) && unchanged(this)
      ensures Trim(username) != [] && UsernameInUse(old(rows), Trim(username)) ==>
        var i := UsernameIndex(old(rows), Trim(username)).value;
        if old(rows)[i].password != Trim(password) then
          resp == Fail(200, WrongPassword) && unchanged(this)
        else
          nextId == old(nextId) &&
          rows == (if Trim(deviceId) == [] then old(rows)
                   else old(rows)[i := old(rows)[i].(deviceId := Some(Trim(deviceId)))]) &&
          resp == Response(Success, 200, NoMessage, Account(rows[i]))
      ensures resp.status == Success && Trim(deviceId) != [] ==>
        CheckSessionStatus(rows, resp.data.user.id, deviceId).status == Active
    {
      var un, pw, did := Trim(username), Trim(password), Trim(deviceId);
      if un == [] {
        return Fail(200, UsernameRequired);
      }
      var found := UsernameIndex(rows, un);
      UsernameIndexFindsUse(rows, un);
      if found.None? {
        return Fail(200, WrongUsername);
      }
      var i := found.value;
      if rows[i].password != pw {
        return Fail(200, WrongPassword);
      }
      if did != [] {
        UpdateKeepsInvariant(rows, nextId, i, rows[i].(deviceId := Some(did)));
        rows := rows[i := rows[i].(deviceId := Some(did))];
        LookupsAreUnique(rows, nextId, i);
      }
      resp := Response(Success, 200, NoMessage, Account(rows[i]));
    }

    /** `remote_logout_student`: refused with 403 unless the student's row has
        `parent_id` equal to `parentId`; otherwise the row with that id loses
        its device binding and nothing else changes, so every later poll of
        that student answers `logged_out` and no device logs it in. */
    method RemoteLogoutStudent(parentId: int, studentId: int) returns (resp: Response)
      requires Valid()
      modifies this
      ensures Valid()
      ensures !IsChildOf(old(rows), studentId, parentId) ==>
        resp == Fail(403, NotYourChild) && unchanged(this)
      ensures IsChildOf(old(rows), studentId, parentId) ==>
        resp == Response(Success, 200, LogoutDone, NoData) && nextId == old(nextId) &&
        |rows| == |old(rows)| &&
        forall j :: 0 <= j < |rows| ==>
          rows[j] == if old(rows)[j].id == studentId then old(rows)[j].(deviceId := None) else old(rows)[j]
      ensures IsChildOf(old(rows), studentId, parentId) ==>
        forall d :: CheckSessionStatus(rows, studentId, d).status == LoggedOut
      ensures IsChildOf(old(rows), studentId, parentId) ==>
        forall d :: LoginStudent(rows, d).status == Success ==> LoginStudent(rows, d).data.user.id != studentId
    {
      var found := FirstWhere(rows, (u: User) => u.id == studentId && u.parentId == Some(parentId));
      if found.None? {
        return Fail(403, NotYourChild);
      }
      var i := found.value;
      LookupsAreUnique(rows, nextId, i);
      UpdateKeepsInvariant(rows, nextId, i, rows[i].(deviceId := None));
      rows := rows[i := rows[i].(deviceId := None)];
      resp := Response(Success, 200, LogoutDone, NoData);
      forall d: string
        ensures CheckSessionStatus(rows, studentId, d).status == LoggedOut
        ensures LoginStudent(rows, d).status == Success ==> LoginStudent(rows, d).data.user.id != studentId
      {
        UnboundStudentIsLoggedOut(rows, studentId, d);
      }
    }
  }

  /** A field value that trimming leaves as it is and that is not blank. */
  predicate Clean(w: string) {
    w != [] && IsTrimmed(w)
  }

  /** A parent registers and adds a child account, for any clean field values
      with two different usernames. */
  method SetUpFamily(parentName: string, parentUser: string, parentPass: string,
                     childName: string, childUser: string, childPass: string, grade: string)
    returns (table: UserTable)
    requires Clean(parentName) && Clean(parentUser) && Clean(parentPass)
    requires Clean(childName) && Clean(childUser) && Clean(childPass) && Clean(grade)
    requires parentUser != childUser
    ensures fresh(table) && table.Valid() && table.nextId == 3
    ensures table.rows == [User(1, parentName, parentUser, parentPass, Parent, None, None, None),
                           User(2, childName, childUser, childPass, Student, Some(grade), None, Some(1))]
  {
    TrimKeepsTrimmed(parentName); TrimKeepsTrimmed(parentUser); TrimKeepsTrimmed(parentPass);
    TrimKeepsTrimmed(childName); TrimKeepsTrimmed(childUser); TrimKeepsTrimmed(childPass);
    TrimKeepsTrimmed(grade);
    table := new UserTable();
    var r := table.RegisterParent(parentName, parentUser, parentPass);
    assert r.status == Success;
    r := table.CreateChildAccount(1, childName, childUser, childPass, grade);
    assert r.status == Success;
  }

  /** Continuing from there: the child logs in on a device, a second account
      with the child's username is refused, and the parent logs the child out
      remotely; from then on the device's poll reports `logged_out` and
      automatic login on that device finds nobody. */
  method ParentChildScenario(parentName: string, parentUser: string, parentPass: string,
                             childName: string, childUser: string, childPass: string,
                             grade: string, device: string)
    returns (table: UserTable)
    requires Clean(parentName) && Clean(parentUser) && Clean(parentPass)
    requires Clean(childName) && Clean(childUser) && Clean(childPass) && Clean(grade) && Clean(device)
    requires parentUser != childUser
    ensures fresh(table) && table.Valid()
    ensures CheckSessionStatus(table.rows, 2, device).status == LoggedOut
    ensures LoginStudent(table.rows, device) == Fail(200, NotFound)
  {
    table := SetUpFamily(parentName, parentUser, parentPass, childName, childUser, childPass, grade);
    TrimKeepsTrimmed(childUser); TrimKeepsTrimmed(childPass); TrimKeepsTrimmed(device);

    assert UsernameInUse(table.rows, childUser) by { assert table.rows[1].username == childUser; }
    var r := table.LoginStudentManual(childUser, childPass, device);
    assert r.status == Success && r.data.user.id == 2;
    assert CheckSessionStatus(table.rows, 2, device).status == Active;

    var before := table.rows;
    r := table.RegisterStudent(childName, childUser, childPass, grade, device, parentUser);
    assert r == Fail(400, UsernameTaken) && table.rows == before;

    assert IsChildOf(table.rows, 2, 1) by { assert table.rows[1].id == 2 && table.rows[1].parentId == Some(1); }
    r := table.RemoteLogoutStudent(1, 2);
    assert r.status == Success;
    assert CheckSessionStatus(table.rows, 2, device).status == LoggedOut;
    assert LoginStudent(table.rows, device) == Fail(200, NotFound);
  }
}
