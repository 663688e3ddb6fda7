/** The two read-only session queries: automatic login by device id
    (`login_student`) and the poll that tells a device whether its student is
    still bound to it (`check_session_status`). */
module Sessions {
  import opened PhpTrim
  import opened Users

  /** `SELECT * FROM users WHERE device_id = ? AND user_type = 'student' LIMIT 1` */
  function StudentWithDevice(users: seq<User>, deviceId: string): Option<nat> {
    FirstWhere(users, (u: User) => u.deviceId == Some(deviceId) && u.userType == Student)
  }

  /** `login_student`: a blank device id is an error; otherwise the response
      carries a student bound to that device, or says "Not found" when no
      student is. Errors use HTTP code 200. A parent is never returned. */
  function LoginStudent(users: seq<User>, deviceId: string): (r: Response)
    ensures r.code == 200
    ensures Trim(deviceId) == [] ==> r == Fail(200, NoDeviceId)
    ensures r.status == Success || r.status == Error
    ensures r.status == Success ==>
      r.message == NoMessage && r.data.Account? && r.data.user in users &&
      r.data.user.userType == Student && r.data.user.deviceId == Some(Trim(deviceId))
    ensures Trim(deviceId) != [] ==>
      (r == Fail(200, NotFound) <==>
       forall i :: 0 <= i < |users| ==> !(users[i].userType == Student && users[i].deviceId == Some(Trim(deviceId))))
    ensures r.status == Error ==> r.data == NoData && (r.message == NoDeviceId || r.message == NotFound)
    ensures Trim(deviceId) != [] &&
      (exists i :: 0 <= i < |users| && users[i].userType == Student && users[i].deviceId == Some(Trim(deviceId)))
      ==> r.status == Success
  {
    var did := Trim(deviceId);
    if did == [] then Fail(200, NoDeviceId)
    else match StudentWithDevice(users, did)
      case Some(i) => Response(Success, 200, NoMessage, Account(users[i]))
      case None => Fail(200, NotFound)
  }

  /** `check_session_status`: `active` when the row with that id exists, the
      trimmed device id is not blank, and the stored device id is set and equal
      to it; `logged_out` in every other case. */
  function CheckSessionStatus(users: seq<User>, studentId: int, deviceId: string): (r: Response)
    ensures r.code == 200 && r.message == NoMessage && r.data == NoData
    ensures r.status == Active || r.status == LoggedOut
    ensures r.status == Active ==>
      Trim(deviceId) != [] &&
      exists i :: 0 <= i < |users| && users[i].id == studentId && users[i].deviceId == Some(Trim(deviceId))
    ensures UniqueIds(users) ==>
      (r.status == Active <==>
       (Trim(deviceId) != [] &&
        exists i :: 0 <= i < |users| && users[i].id == studentId && users[i].deviceId == Some(Trim(deviceId))))
  {
    var did := Trim(deviceId);
    var active := match IdIndex(users, studentId)
      case Some(i) => users[i].deviceId == Some(did) && did != []
      case None => false;
    Response(if active then Active else LoggedOut, 200, NoMessage, NoData)
  }

  /** Once no row with the student's id holds a device, every poll for that
      student reports `logged_out`, and no automatic login returns it. */
  lemma UnboundStudentIsLoggedOut(users: seq<User>, studentId: int, deviceId: string)
    requires forall i :: 0 <= i < |users| && users[i].id == studentId ==> users[i].deviceId.None?
    ensures CheckSessionStatus(users, studentId, deviceId).status == LoggedOut
    ensures LoginStudent(users, deviceId).status == Success ==>
      LoginStudent(users, deviceId).data.user.id != studentId
  {
  }
}
