/**
 * The application state touched when a chat or game session ends: the learner's daily
 * XP, which is capped at the daily goal, and the streak shown in the header.
 */
module Session {
  import opened Wrappers
  import opened Calendar
  import opened DateHelper
  import opened StreakHelper

  /** The two kinds of practice session. */
  datatype SessionKind = Chat | Game

  /** The learner record `{ name, dailyXP, dailyGoal }`. */
  datatype User = User(name: string, dailyXP: int, dailyGoal: int)

  /** The user every launch starts with. */
  const InitialUser := User("Alex", 0, 100)

  /** XP awarded for a session: 20 for a chat, 30 for a game. */
  function XpGained(kind: SessionKind): (xp: int)
    ensures xp > 0
    ensures kind == Chat <==> xp == 20
    ensures kind == Game ==> xp == 30
  {
    if kind == Chat then 20 else 30
  }

  /** The user after earning the XP of one session, `Math.min(dailyXP + xpGained, dailyGoal)`. */
  function Credited(user: User, kind: SessionKind): (r: User)
    ensures r.name == user.name && r.dailyGoal == user.dailyGoal
    ensures r.dailyXP <= r.dailyGoal && r.dailyXP <= user.dailyXP + XpGained(kind)
    ensures r.dailyXP == r.dailyGoal || r.dailyXP == user.dailyXP + XpGained(kind)
    ensures user.dailyXP <= user.dailyGoal ==> user.dailyXP <= r.dailyXP
    ensures user.dailyXP == user.dailyGoal ==> r == user
  {
    var total := user.dailyXP + XpGained(kind);
    user.(dailyXP := if total < user.dailyGoal then total else user.dailyGoal)
  }

  /** The user after a run of sessions, in order. */
  function CreditedAll(user: User, kinds: seq<SessionKind>): (r: User)
    ensures r.name == user.name && r.dailyGoal == user.dailyGoal
    decreases |kinds|
  {
    if |kinds| == 0 then user else CreditedAll(Credited(user, kinds[0]), kinds[1..])
  }

  /** The XP a run of sessions would earn without the cap. */
  function TotalGained(kinds: seq<SessionKind>): (n: int)
    ensures n >= 20 * |kinds|
    decreases |kinds|
  {
    if |kinds| == 0 then 0 else XpGained(kinds[0]) + TotalGained(kinds[1..])
  }

  /** After a run of sessions the daily XP is the uncapped sum, cut at the goal:
      the cap applied once per session is the cap applied once to the total. */
  lemma {:induction false} CreditedAllIsCappedSum(user: User, kinds: seq<SessionKind>)
    requires user.dailyXP <= user.dailyGoal
    ensures var total := user.dailyXP + TotalGained(kinds);
      CreditedAll(user, kinds).dailyXP == if total < user.dailyGoal then total else user.dailyGoal
    decreases |kinds|
  {
    if |kinds| > 0 {
      CreditedAllIsCappedSum(Credited(user, kinds[0]), kinds[1..]);
    }
  }

  /** From the initial user, five sessions of any kind reach the daily goal of 100. */
  lemma FiveSessionsReachGoal(kinds: seq<SessionKind>)
    requires |kinds| >= 5
    ensures CreditedAll(InitialUser, kinds).dailyXP == 100
  {
    CreditedAllIsCappedSum(InitialUser, kinds);
  }

  /** The part of the application state the session flow reads and writes. */
  class App {
    var user: User
    var streak: int
    const tracker: StreakTracker

    /** Launch: the initial user, and the streak read once from the stored record. */
    constructor (saved: Option<StreakData>, now: Instant)
      ensures fresh(tracker) && tracker.stored == saved
      ensures user == InitialUser
      ensures streak == Shown(saved, DayOf(now))
    {
      user := InitialUser;
      tracker := new StreakTracker(saved);
      new;
      streak := tracker.GetStreak(now);
    }

    /** `handleSessionComplete(kind)`: update the streak record, show its count and credit the XP. */
    method SessionComplete(kind: SessionKind, now: Instant)
      modifies this, tracker
      ensures user == Credited(old(user), kind)
      ensures streak == Completed(old(tracker.stored), DayOf(now)).count
      ensures old(tracker.stored).GetOr(Fresh).lastCompletedDate == IsoDay(DayOf(now)) ==> tracker.stored == old(tracker.stored)
      ensures old(tracker.stored).GetOr(Fresh).lastCompletedDate != IsoDay(DayOf(now)) ==>
        tracker.stored == Some(Completed(old(tracker.stored), DayOf(now)))
      ensures old(user).dailyXP <= old(user).dailyGoal ==> old(user).dailyXP <= user.dailyXP <= user.dailyGoal
    {
      var xpGained := if kind == Chat then 20 else 30;
      var newStreak := tracker.UpdateStreak(now);
      streak := newStreak;
      var total := user.dailyXP + xpGained;
      user := user.(dailyXP := if total < user.dailyGoal then total else user.dailyGoal);
    }
  }
}
