/** The attempt log and the leaderboard read (models/statsModel.js).

    The stats table is an append-only sequence of (user, recipe, outcome)
    records held by an `AttemptLog`. The leaderboard is derived from the log
    on every read: one entry per user who has attempts, with the user's
    cooked and burned counts and their sum, ordered by cooked count
    descending and then by total count descending. */
module StatsModel {
  import opened Common

  datatype AttemptRecord = AttemptRecord(userId: string, recipeId: string, outcome: string)

  /** The only outcomes `recordAttempt` lets through. */
  predicate ValidOutcome(outcome: string)
  {
    outcome == "cooked" || outcome == "burned"
  }

  predicate AllValid(records: seq<AttemptRecord>)
  {
    forall i :: 0 <= i < |records| ==> ValidOutcome(records[i].outcome)
  }

  datatype StatsError =
    | InvalidOutcome   // the error thrown before the insert
    | StoreFailure     // the insert itself failed

  /** What `recordAttempt` returns or throws: the outcome check comes first,
      then the insert; success is always the value `true`. */
  function AttemptResult(outcome: string, storeUp: bool): (r: Result<bool, StatsError>)
    ensures r.Success? <==> ValidOutcome(outcome) && storeUp
    ensures r.Success? ==> r.value
    ensures !ValidOutcome(outcome) ==> r == Failure(InvalidOutcome)
  {
    if !ValidOutcome(outcome) then Failure(InvalidOutcome)
    else if !storeUp then Failure(StoreFailure)
    else Success(true)
  }

  /** The stats table. */
  class AttemptLog {
    var records: seq<AttemptRecord>

    /** Nothing but 'cooked' and 'burned' is ever stored. */
    ghost predicate Valid()
      reads this
    {
      AllValid(records)
    }

    constructor ()
      ensures Valid() && records == []
    {
      records := [];
    }

    /** `recordAttempt`. `storeUp` says whether the database accepts the
        insert. An invalid outcome, or a failed insert, leaves the log as it
        was; otherwise exactly one record is appended, with no check for an
        equal record already present. */
    method RecordAttempt(userId: string, recipeId: string, outcome: string, storeUp: bool)
      returns (r: Result<bool, StatsError>)
      requires Valid()
      modifies this
      ensures Valid()
      ensures r == AttemptResult(outcome, storeUp)
      ensures records == if r.Success? then old(records) + [AttemptRecord(userId, recipeId, outcome)] else old(records)
    {
      if !(outcome == "cooked" || outcome == "burned") {
        return Failure(InvalidOutcome);
      }
      if !storeUp {
        return Failure(StoreFailure);
      }
      records := records + [AttemptRecord(userId, recipeId, outcome)];
      return Success(true);
    }
  }

  // ---------------------------------------------------------------------
  // Counting the log
  // ---------------------------------------------------------------------

  /** The number of records of `userId` with `outcome`. */
  function Count(log: seq<AttemptRecord>, userId: string, outcome: string): (n: nat)
    ensures n <= |log|
  {
    if log == [] then 0
    else
      var last := log[|log| - 1];
      Count(log[..|log| - 1], userId, outcome) + (if last.userId == userId && last.outcome == outcome then 1 else 0)
  }

  /** The number of records of `userId`, whatever their outcome. */
  function Attempts(log: seq<AttemptRecord>, userId: string): (n: nat)
    ensures n <= |log|
  {
    if log == [] then 0
    else Attempts(log[..|log| - 1], userId) + (if log[|log| - 1].userId == userId then 1 else 0)
  }

  lemma {:induction false} CountAppend(log: seq<AttemptRecord>, more: seq<AttemptRecord>, userId: string, outcome: string)
    ensures Count(log + more, userId, outcome) == Count(log, userId, outcome) + Count(more, userId, outcome)
    decreases |more|
  {
    if more == [] {
      assert log + more == log;
    } else {
      assert (log + more)[..|log + more| - 1] == log + more[..|more| - 1];
      CountAppend(log, more[..|more| - 1], userId, outcome);
    }
  }

  /** No deduplication: storing the same record twice counts twice. */
  lemma RecordedTwiceCountsTwice(log: seq<AttemptRecord>, r: AttemptRecord)
    ensures Count(log + [r] + [r], r.userId, r.outcome) == Count(log, r.userId, r.outcome) + 2
  {
    CountAppend(log, [r] + [r], r.userId, r.outcome);
    assert log + [r] + [r] == log + ([r] + [r]);
    assert ([r] + [r])[..1] == [r];
  }

  /** Since only the two outcomes are ever stored, a user's cooked and burned
      counts together are all of that user's attempts. */
  lemma {:induction false} CountsCoverAttempts(log: seq<AttemptRecord>, userId: string)
    requires AllValid(log)
    ensures Count(log, userId, "cooked") + Count(log, userId, "burned") == Attempts(log, userId)
    decreases |log|
  {
    if log != [] {
      CountsCoverAttempts(log[..|log| - 1], userId);
    }
  }

  /** The users that have at least one record, each once, in the order of
      their first record. */
  function UsersOf(log: seq<AttemptRecord>): (us: seq<string>)
    ensures forall i, j :: 0 <= i < j < |us| ==> us[i] != us[j]
    ensures forall u :: u in us <==> exists k :: 0 <= k < |log| && log[k].userId == u
  {
    if log == [] then []
    else
      var prefix := log[..|log| - 1];
      var us := UsersOf(prefix);
      var u := log[|log| - 1].userId;
      assert forall k :: 0 <= k < |prefix| ==> prefix[k] == log[k];
      if u in us then us else us + [u]
  }

  // ---------------------------------------------------------------------
  // The leaderboard
  // ---------------------------------------------------------------------

  /** A row of the leaderboard; `totalEggs` is computed by the query. */
  datatype Entry = Entry(userId: string, totalCooked: nat, totalBurned: nat, totalEggs: nat)

  function EntryFor(log: seq<AttemptRecord>, userId: string): (e: Entry)
    ensures e.userId == userId && e.totalEggs == e.totalCooked + e.totalBurned
    ensures e.totalCooked == Count(log, userId, "cooked") && e.totalBurned == Count(log, userId, "burned")
  {
    var cooked := Count(log, userId, "cooked");
    var burned := Count(log, userId, "burned");
    Entry(userId, cooked, burned, cooked + burned)
  }

  function EntriesFor(log: seq<AttemptRecord>, users: seq<string>): (rows: seq<Entry>)
    ensures |rows| == |users|
    ensures forall i :: 0 <= i < |users| ==> rows[i] == EntryFor(log, users[i])
  {
    if users == [] then [] else [EntryFor(log, users[0])] + EntriesFor(log, users[1..])
  }

  /** The per-user aggregate the query reads from, before ordering. */
  function Rows(log: seq<AttemptRecord>): seq<Entry>
  {
    EntriesFor(log, UsersOf(log))
  }

  /** `a` may be listed before `b`: more cooked, or as many cooked and at
      least as many eggs in all. */
  predicate RanksAbove(a: Entry, b: Entry)
  {
    a.totalCooked > b.totalCooked || (a.totalCooked == b.totalCooked && a.totalEggs >= b.totalEggs)
  }

  /** `ORDER BY total_cooked DESC, total_eggs DESC`. */
  predicate Ordered(s: seq<Entry>)
  {
    forall i, j :: 0 <= i < j < |s| ==> RanksAbove(s[i], s[j])
  }

  function Insert(e: Entry, s: seq<Entry>): (r: seq<Entry>)
    ensures multiset(r) == multiset(s) + multiset{e}
  {
    if s == [] then [e]
    else if RanksAbove(e, s[0]) then [e] + s
    else
      assert s == [s[0]] + s[1..];
      [s[0]] + Insert(e, s[1..])
  }

  lemma {:induction false} InsertOrdered(e: Entry, s: seq<Entry>)
    requires Ordered(s)
    ensures Ordered(Insert(e, s))
    decreases |s|
  {
    if s != [] && !RanksAbove(e, s[0]) {
      var tail := Insert(e, s[1..]);
      InsertOrdered(e, s[1..]);
      forall x | x in tail ensures RanksAbove(s[0], x) {
        assert x in multiset(tail);
        if x != e {
          assert x in multiset(s[1..]);
          var k :| 0 <= k < |s[1..]| && s[1..][k] == x;
          assert s[k + 1] == x;
        }
      }
      var r := [s[0]] + tail;
      forall i, j | 0 <= i < j < |r| ensures RanksAbove(r[i], r[j]) {
        if i == 0 {
          assert r[j] == tail[j - 1] && r[j] in tail;
        } else {
          assert r[i] == tail[i - 1] && r[j] == tail[j - 1];
        }
      }
    }
  }

  /** The ordering the query applies; among entries equal on both keys the
      database may use any order, and this one keeps the input order. */
  function Sort(s: seq<Entry>): (r: seq<Entry>)
    ensures Ordered(r)
    ensures multiset(r) == multiset(s)
  {
    if s == [] then []
    else
      var sorted := Sort(s[1..]);
      InsertOrdered(s[0], sorted);
      assert s == [s[0]] + s[1..];
      Insert(s[0], sorted)
  }

  /** `getLeaderboard` once the query has succeeded. */
  function Leaderboard(log: seq<AttemptRecord>): (lb: seq<Entry>)
    ensures Ordered(lb)
    ensures multiset(lb) == multiset(Rows(log))
  {
    Sort(Rows(log))
  }

  /** `getLeaderboard`: a failed query is caught and yields no entries. */
  function GetLeaderboard(log: seq<AttemptRecord>, storeUp: bool): (lb: seq<Entry>)
    ensures storeUp ==> lb == Leaderboard(log)
    ensures !storeUp ==> lb == []
  {
    if storeUp then Leaderboard(log) else []
  }

  /** The leaderboard is in the query's order, each entry's total is the sum
      of its two counts and its counts are those of its user in the log, and
      there is exactly one entry for each user that has a record. */
  lemma LeaderboardIsTheProjection(log: seq<AttemptRecord>)
    ensures var lb := Leaderboard(log);
      && Ordered(lb)
      && |lb| == |UsersOf(log)|
      && (forall i :: 0 <= i < |lb| ==> lb[i].totalEggs == lb[i].totalCooked + lb[i].totalBurned)
      && (forall i :: 0 <= i < |lb| ==> lb[i] == EntryFor(log, lb[i].userId))
      && (forall u :: (exists k :: 0 <= k < |log| && log[k].userId == u) <==> EntryFor(log, u) in lb)
      && (forall i, j :: 0 <= i < j < |lb| ==> lb[i].userId != lb[j].userId)
  {
    var rows := Rows(log);
    var us := UsersOf(log);
    var lb := Leaderboard(log);
    assert |lb| == |multiset(lb)| == |multiset(rows)| == |rows|;
    forall i | 0 <= i < |lb| ensures lb[i] == EntryFor(log, lb[i].userId) && lb[i].userId in us {
      assert lb[i] in multiset(rows);
    }
    forall u ensures (exists k :: 0 <= k < |log| && log[k].userId == u) <==> EntryFor(log, u) in lb {
      if u in us {
        var i :| 0 <= i < |us| && us[i] == u;
        assert rows[i] in multiset(lb);
      }
      if EntryFor(log, u) in lb {
        assert EntryFor(log, u) in multiset(rows);
      }
    }
    forall i, j | 0 <= i < j < |lb| ensures lb[i].userId != lb[j].userId {
      DistinctUsersInSort(log, lb, i, j);
    }
  }

  /** Two positions of the leaderboard never hold the same user. */
  lemma DistinctUsersInSort(log: seq<AttemptRecord>, lb: seq<Entry>, i: nat, j: nat)
    requires lb == Leaderboard(log) && i < j < |lb|
    ensures lb[i].userId != lb[j].userId
  {
    var rows := Rows(log);
    if lb[i].userId == lb[j].userId {
      assert lb[i] in multiset(rows) && lb[j] in multiset(rows);
      assert lb[i] == lb[j];
      TwiceInMultiset(lb, i, j);
      RowsOccurOnce(log, UsersOf(log), lb[i]);
      assert false;
    }
  }

  lemma TwiceInMultiset<T>(s: seq<T>, i: nat, j: nat)
    requires i < j < |s| && s[i] == s[j]
    ensures multiset(s)[s[i]] >= 2
  {
    assert s == s[..i] + [s[i]] + s[i + 1..j] + [s[j]] + s[j + 1..];
  }

  lemma {:induction false} RowsOccurOnce(log: seq<AttemptRecord>, users: seq<string>, e: Entry)
    requires forall a, b :: 0 <= a < b < |users| ==> users[a] != users[b]
    ensures multiset(EntriesFor(log, users))[e] <= 1
    decreases |users|
  {
    if users != [] {
      var rest := EntriesFor(log, users[1..]);
      RowsOccurOnce(log, users[1..], e);
      assert EntriesFor(log, users) == [EntryFor(log, users[0])] + rest;
    }
  }
}
