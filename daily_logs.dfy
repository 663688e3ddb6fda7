/** `get_my_children`: a parent's dashboard, read from `users` and the
    `daily_logs` rows (one per quiz submission), as of a given calendar day. */
module DailyLogs {
  import opened Users

  /** One `daily_logs` row; `logDate` is a calendar day number. */
  datatype DailyLog = DailyLog(studentId: int, score: int, logDate: int)

  /** One row of the dashboard: the child's columns, how many logs the child
      has for today, and the score of its latest log, if any. */
  datatype ChildSummary = ChildSummary(
    id: int,
    fullName: string,
    gradeLevel: Option<string>,
    username: string,
    loggedToday: nat,
    lastScore: Option<int>)

  /** The positions of the student's logs dated `day`. */
  ghost function LogsOnPositions(logs: seq<DailyLog>, studentId: int, day: int): set<int> {
    set k | 0 <= k < |logs| && logs[k].studentId == studentId && logs[k].logDate == day
  }

  /** Counting row by row: the matching logs among all but the last, plus one
      when the last log matches too. */
  lemma LogsOnPositionsOfPrefix(logs: seq<DailyLog>, init: seq<DailyLog>, studentId: int, day: int)
    requires logs != [] && init == logs[..|logs| - 1]
    ensures |LogsOnPositions(logs, studentId, day)|
         == |LogsOnPositions(init, studentId, day)|
            + (if logs[|init|].studentId == studentId && logs[|init|].logDate == day then 1 else 0)
  {
    assert forall k :: 0 <= k < |init| ==> logs[k] == init[k];
    var tail: set<int> := if logs[|init|].studentId == studentId && logs[|init|].logDate == day then {|init|} else {};
    assert LogsOnPositions(logs, studentId, day) == LogsOnPositions(init, studentId, day) + tail;
    assert |init| !in LogsOnPositions(init, studentId, day);
  }

  /** `SELECT COUNT(*) FROM daily_logs WHERE student_id = ? AND log_date = ?`:
      the number of rows that match. */
  function LogsOn(logs: seq<DailyLog>, studentId: int, day: int): (n: nat)
    ensures n == |LogsOnPositions(logs, studentId, day)|
    ensures n <= |logs|
    ensures n == 0 <==> forall k :: 0 <= k < |logs| ==> !(logs[k].studentId == studentId && logs[k].logDate == day)
  {
    if logs == [] then 0
    else
      var init := logs[..|logs| - 1];
      var rest := LogsOn(init, studentId, day);
      var last := |logs| - 1;
      assert forall k :: 0 <= k < last ==> logs[k] == init[k];
      LogsOnPositionsOfPrefix(logs, init, studentId, day);
      if logs[last].studentId == studentId && logs[last].logDate == day then rest + 1 else rest
  }

  /** The position of one of the student's logs with the latest date, or None
      when the student has no log. */
  function LatestLog(logs: seq<DailyLog>, studentId: int): (r: Option<nat>)
    ensures r.None? <==> forall k :: 0 <= k < |logs| ==> logs[k].studentId != studentId
    ensures r.Some? ==>
      r.value < |logs| && logs[r.value].studentId == studentId &&
      forall k :: 0 <= k < |logs| && logs[k].studentId == studentId ==> logs[k].logDate <= logs[r.value].logDate
  {
    if logs == [] then None
    else
      assert forall k :: 1 <= k < |logs| ==> logs[k] == logs[1..][k - 1];
      match LatestLog(logs[1..], studentId)
      case None => if logs[0].studentId == studentId then Some(0) else None
      case Some(i) =>
        if logs[0].studentId == studentId && logs[0].logDate > logs[1..][i].logDate then Some(0)
        else Some(i + 1)
  }

  /** `SELECT score FROM daily_logs WHERE student_id = ? ORDER BY log_date DESC
      LIMIT 1`: absent exactly when the student has no log; otherwise the score
      of some log of the student whose date no other log of the student
      exceeds. (Which of several logs on that date is chosen is not fixed by
      the query, so nothing more is claimed.) */
  function LastScore(logs: seq<DailyLog>, studentId: int): (r: Option<int>)
    ensures r.None? <==> forall k :: 0 <= k < |logs| ==> logs[k].studentId != studentId
    ensures r.Some? ==>
      exists i :: 0 <= i < |logs| && logs[i].studentId == studentId && logs[i].score == r.value &&
        forall k :: 0 <= k < |logs| && logs[k].studentId == studentId ==> logs[k].logDate <= logs[i].logDate
  {
    match LatestLog(logs, studentId)
    case None => None
    case Some(i) => Some(logs[i].score)
  }

  function Summarize(u: User, logs: seq<DailyLog>, today: int): ChildSummary {
    ChildSummary(u.id, u.fullName, u.gradeLevel, u.username, LogsOn(logs, u.id, today), LastScore(logs, u.id))
  }

  /** The positions of the rows whose `parent_id` is the given id. */
  ghost function ChildPositions(users: seq<User>, parentId: int): set<int> {
    set i | 0 <= i < |users| && users[i].parentId == Some(parentId)
  }

  /** Counting the children row by row: those among all rows but the last,
      plus one when the last row is a child too. */
  lemma ChildPositionsOfPrefix(users: seq<User>, init: seq<User>, parentId: int)
    requires users != [] && init == users[..|users| - 1]
    ensures |ChildPositions(users, parentId)|
         == |ChildPositions(init, parentId)| + (if users[|init|].parentId == Some(parentId) then 1 else 0)
  {
    assert forall k :: 0 <= k < |init| ==> users[k] == init[k];
    var tail: set<int> := if users[|init|].parentId == Some(parentId) then {|init|} else {};
    assert ChildPositions(users, parentId) == ChildPositions(init, parentId) + tail;
    assert |init| !in ChildPositions(init, parentId);
  }

  /** `FROM users u WHERE u.parent_id = ?`: the rows whose `parent_id` is the
      given id, in table order, each as often as it occurs. */
  function ChildRows(users: seq<User>, parentId: int): (kids: seq<User>)
    ensures |kids| == |ChildPositions(users, parentId)| && |kids| <= |users|
    ensures forall u :: u in kids <==> u in users && u.parentId == Some(parentId)
  {
    if users == [] then []
    else
      var init := users[..|users| - 1];
      var last := |users| - 1;
      assert users == init + [users[last]];
      ChildPositionsOfPrefix(users, init, parentId);
      if users[last].parentId == Some(parentId) then ChildRows(init, parentId) + [users[last]]
      else ChildRows(init, parentId)
  }

  /** `get_my_children`: one summary per user whose `parent_id` is the given
      id, and nothing else; as many summaries as there are such rows. */
  function GetMyChildren(users: seq<User>, logs: seq<DailyLog>, today: int, parentId: int): (r: seq<ChildSummary>)
    ensures |r| == |ChildPositions(users, parentId)| && |r| <= |users|
    ensures forall c :: c in r ==>
      exists u :: u in users && u.parentId == Some(parentId) && c == Summarize(u, logs, today)
    ensures forall u :: u in users && u.parentId == Some(parentId) ==> Summarize(u, logs, today) in r
  {
    var kids := ChildRows(users, parentId);
    var r := seq(|kids|, i requires 0 <= i < |kids| => Summarize(kids[i], logs, today));
    assert forall u :: u in kids ==> exists i :: 0 <= i < |kids| && kids[i] == u && r[i] == Summarize(u, logs, today);
    r
  }

  /** Under the table invariant every parent reference is a positive id, so a
      missing or non-positive `parent_id` (cast to 0 or below) lists nobody. */
  lemma NoChildrenOfNonPositiveId(users: seq<User>, nextId: int, logs: seq<DailyLog>, today: int, parentId: int)
    requires TableInvariant(users, nextId) && parentId <= 0
    ensures GetMyChildren(users, logs, today, parentId) == []
  {
  }
}
