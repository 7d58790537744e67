/** The stats endpoints (controls/statsController.js): recording one
    attempt for the signed-in user, the leaderboard as JSON with the caller's
    id, and the "egg master" page that shows the top entry. */
module StatsController {
  import opened Common
  import opened StatsModel
  import CookTimer

  datatype Body =
    | SuccessBody                                               // { success: true }
    | ErrorBody(error: string)                                  // { error: ... }
    | LeaderboardBody(leaderboard: seq<Entry>, currentUser: Option<string>)

  datatype JsonReply = JsonReply(status: nat, body: Body)

  /** The reply of `recordStat` for a request whose body carries `recipeId`
      and `outcome` (the empty string stands for a missing or empty field)
      from `user` (None when nobody is signed in). `storeUp` says whether the
      insert would succeed. */
  function RecordStatReply(user: Option<User>, recipeId: string, outcome: string, storeUp: bool): (r: JsonReply)
    ensures r.status == 401 <==> user.None?
    ensures r.status == 400 <==> user.Some? && (recipeId == "" || outcome == "")
    ensures r.status == 200 <==> user.Some? && recipeId != "" && outcome != "" && ValidOutcome(outcome) && storeUp
    ensures r.status == 500 <==> user.Some? && recipeId != "" && outcome != "" && !(ValidOutcome(outcome) && storeUp)
    ensures r.status == 200 <==> r.body == SuccessBody
  {
    if user.None? then JsonReply(401, ErrorBody("Unauthorized"))
    else if recipeId == "" || outcome == "" then JsonReply(400, ErrorBody("Missing recipeId or outcome"))
    else if AttemptResult(outcome, storeUp).Success? then JsonReply(200, SuccessBody)
    else JsonReply(500, ErrorBody("Internal Server Error"))
  }

  /** `recordStat`: the guards run before the log is touched; once they pass,
      `recordAttempt` is called exactly once with the signed-in user's id, and
      any failure it reports, an invalid outcome included, becomes a 500. */
  method RecordStat(log: AttemptLog, user: Option<User>, recipeId: string, outcome: string, storeUp: bool)
    returns (r: JsonReply)
    requires log.Valid()
    modifies log
    ensures log.Valid()
    ensures r == RecordStatReply(user, recipeId, outcome, storeUp)
    ensures log.records == if r.status == 200
      then old(log.records) + [AttemptRecord(user.value.id, recipeId, outcome)]
      else old(log.records)
  {
    if user.None? {
      return JsonReply(401, ErrorBody("Unauthorized"));
    }
    if recipeId == "" || outcome == "" {
      return JsonReply(400, ErrorBody("Missing recipeId or outcome"));
    }
    var result := log.RecordAttempt(user.value.id, recipeId, outcome, storeUp);
    if result.Success? {
      return JsonReply(200, SuccessBody);
    }
    return JsonReply(500, ErrorBody("Internal Server Error"));
  }

  /** The text the timer page puts in the `outcome` field. */
  function OutcomeText(o: CookTimer.Outcome): string
  {
    match o
    case Cooked => "cooked"
    case Burned => "burned"
  }

  /** Every report the timer page sends carries a recipe id and an outcome
      the log accepts, so for a signed-in user it is answered 200 and
      recorded whenever the database takes the insert, and answered 500
      otherwise; it is never refused as a bad request. */
  lemma TimerReportsAreAccepted(c: CookTimer.Config, o: CookTimer.Outcome, user: User, storeUp: bool)
    requires CookTimer.Reported(o) in CookTimer.ReportEvents(c, o)
    ensures RecordStatReply(Some(user), c.recipeId, OutcomeText(o), storeUp).status == (if storeUp then 200 else 500)
  {
  }

  /** `getLeaderboardJson`: the leaderboard and the caller's id, or null. */
  function LeaderboardJson(lb: seq<Entry>, user: Option<User>): (r: JsonReply)
    ensures r.status == 200 && r.body.LeaderboardBody? && r.body.leaderboard == lb
    ensures r.body.currentUser.Some? <==> user.Some?
    ensures user.Some? ==> r.body.currentUser == Some(user.value.id)
  {
    JsonReply(200, LeaderboardBody(lb, if user.Some? then Some(user.value.id) else None))
  }

  /** `showEggMaster`: the first leaderboard entry, or null for an empty list. */
  function EggMaster(lb: seq<Entry>): (m: Option<Entry>)
    ensures m.None? <==> lb == []
    ensures m.Some? ==> m.value == lb[0]
  {
    if |lb| > 0 then Some(lb[0]) else None
  }

  /** On the leaderboard read from the log, the egg master exists exactly
      when someone has an attempt, and nobody has cooked more eggs, nor as
      many with more eggs in all. */
  lemma EggMasterLeads(log: seq<AttemptRecord>)
    ensures var lb := Leaderboard(log);
      && (EggMaster(lb).Some? <==> |log| > 0)
      && (EggMaster(lb).Some? ==> forall e :: e in lb ==> RanksAbove(EggMaster(lb).value, e))
  {
    var lb := Leaderboard(log);
    LeaderboardIsTheProjection(log);
    if |log| > 0 {
      assert log[0].userId in UsersOf(log);
    }
    forall e | e in lb && |lb| > 0 ensures RanksAbove(lb[0], e) {
      var k :| 0 <= k < |lb| && lb[k] == e;
      if k > 0 {
        assert RanksAbove(lb[0], lb[k]);
      }
    }
  }
}
