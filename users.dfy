/** The `users` table behind the JSON endpoint: its rows, the responses the
    endpoint sends back, and the single-table lookups every action uses. */
module Users {

  datatype Option<+T> = None | Some(value: T)

  datatype UserType = Parent | Student

  /** One row of `users`. `password` is the `password_hash` column, which the
      endpoint stores and compares as plain text. */
  datatype User = User(
    id: int,
    fullName: string,
    username: string,
    password: string,
    userType: UserType,
    gradeLevel: Option<string>,
    deviceId: Option<string>,
    parentId: Option<int>)

  /** The `status` field of a response. */
  datatype Status = Success | Error | Active | LoggedOut

  /** The `message` field of a response (the source's messages are Arabic or
      English text; each distinct situation gets one constructor). */
  datatype Message =
    | NoMessage
    | MissingData        // a required field is blank
    | UsernameTaken      // the username is already in the table
    | UsernameRequired
    | WrongUsername      // no row has that username
    | WrongPassword
    | NoDeviceId
    | NotFound           // no student is bound to the device
    | NotYourChild       // the student does not belong to the parent
    | ChildAdded
    | LogoutDone

  /** The `data` field of a response. */
  datatype Payload =
    | NoData
    | NewStudent(id: int, fullName: string, username: string, gradeLevel: string, deviceId: string)
    | NewParent(id: int, username: string)
    | Account(user: User)

  /** One JSON response together with its HTTP status code. */
  datatype Response = Response(status: Status, code: int, message: Message, data: Payload)

  function Fail(code: int, message: Message): Response {
    Response(Error, code, message, NoData)
  }

  /** `SELECT ... WHERE <matches> LIMIT 1`: the first row, in table order, that
      satisfies the condition, or None when no row does. */
  function FirstWhere(users: seq<User>, matches: User -> bool): (r: Option<nat>)
    ensures r.Some? ==> r.value < |users| && matches(users[r.value])
    ensures r.Some? ==> forall j :: 0 <= j < r.value ==> !matches(users[j])
    ensures r.None? <==> forall j :: 0 <= j < |users| ==> !matches(users[j])
  {
    if users == [] then None
    else if matches(users[0]) then Some(0)
    else match FirstWhere(users[1..], matches)
      case None => None
      case Some(i) => Some(i + 1)
  }

  /** `SELECT id FROM users WHERE username = ?` */
  function UsernameIndex(users: seq<User>, name: string): Option<nat> {
    FirstWhere(users, (u: User) => u.username == name)
  }

  /** `SELECT ... FROM users WHERE id = ?` */
  function IdIndex(users: seq<User>, id: int): Option<nat> {
    FirstWhere(users, (u: User) => u.id == id)
  }

  predicate UsernameInUse(users: seq<User>, name: string) {
    exists i :: 0 <= i < |users| && users[i].username == name
  }

  /** `SELECT id FROM users WHERE id = ? AND parent_id = ?` finds a row. */
  predicate IsChildOf(users: seq<User>, studentId: int, parentId: int) {
    exists i :: 0 <= i < |users| && users[i].id == studentId && users[i].parentId == Some(parentId)
  }

  /** The parent a new student is linked to: the id of the first user whose
      username is `parentUsername` and whose type is parent; absent, without
      any error, when the name is blank or names no parent. */
  function ParentIdFor(users: seq<User>, parentUsername: string): (r: Option<int>)
    ensures r.Some? ==>
      exists i :: 0 <= i < |users| && users[i].id == r.value
        && users[i].username == parentUsername && users[i].userType == Parent
    ensures r.None? <==>
      (parentUsername == [] ||
       forall i :: 0 <= i < |users| ==> !(users[i].username == parentUsername && users[i].userType == Parent))
  {
    if parentUsername == [] then None
    else match FirstWhere(users, (u: User) => u.username == parentUsername && u.userType == Parent)
      case None => None
      case Some(i) => Some(users[i].id)
  }

  predicate UniqueUsernames(users: seq<User>) {
    forall i, j :: 0 <= i < j < |users| ==> users[i].username != users[j].username
  }

  predicate UniqueIds(users: seq<User>) {
    forall i, j :: 0 <= i < j < |users| ==> users[i].id != users[j].id
  }

  /** What the table keeps across every action: auto-increment ids, all below
      the next id to hand out and rising in table order; pairwise distinct
      usernames; and parent references that are positive ids. */
  predicate TableInvariant(users: seq<User>, nextId: int) {
    && nextId >= 1
    && (forall i :: 0 <= i < |users| ==> 1 <= users[i].id < nextId)
    && (forall i, j :: 0 <= i < j < |users| ==> users[i].id < users[j].id)
    && UniqueUsernames(users)
    && (forall i :: 0 <= i < |users| && users[i].parentId.Some? ==> users[i].parentId.value >= 1)
  }

  /** Under the table invariant, a lookup by id or username finds the one row
      that has it. */
  lemma LookupsAreUnique(users: seq<User>, nextId: int, i: nat)
    requires TableInvariant(users, nextId) && i < |users|
    ensures IdIndex(users, users[i].id) == Some(i)
    ensures UsernameIndex(users, users[i].username) == Some(i)
    ensures UniqueIds(users)
  {
  }

  /** A username lookup fails exactly when the username is not in use. */
  lemma UsernameIndexFindsUse(users: seq<User>, name: string)
    ensures UsernameIndex(users, name).None? <==> !UsernameInUse(users, name)
  {
  }

  /** Inserting a row with the next id, a username not yet in use and a
      positive or absent parent keeps the invariant, with the counter bumped. */
  lemma InsertKeepsInvariant(users: seq<User>, nextId: int, u: User)
    requires TableInvariant(users, nextId)
    requires u.id == nextId && !UsernameInUse(users, u.username)
    requires u.parentId.Some? ==> u.parentId.value >= 1
    ensures TableInvariant(users + [u], nextId + 1)
  {
  }

  /** Rewriting a row without touching its id, username or parent keeps the
      invariant. */
  lemma UpdateKeepsInvariant(users: seq<User>, nextId: int, i: nat, v: User)
    requires TableInvariant(users, nextId) && i < |users|
    requires v.id == users[i].id && v.username == users[i].username && v.parentId == users[i].parentId
    ensures TableInvariant(users[i := v], nextId)
  {
  }
}
