/** XP, streaks, activity and badges (core/progression.py). */
module Progression {
  import opened Numbers

  type Time = int

  /** The actions with their `meta`; a missing family or lesson id is the empty string. */
  datatype Action =
    | LessonComplete(family: string, lesson: string)
    | CorrectLabel
    | WrongLabel
    | CanaryFound
    | Block
    | DuelPlayed(won: bool, opponent: string)
    | DuelWin(opponent: string)
    | Unknown(name: string)

  datatype Counts = Counts(
    lessonIds: set<string>, lessonsDone: nat, correctLabels: nat, wrongLabels: nat,
    canaries: nat, blocks: nat, duelsPlayed: nat, duelsWon: nat)

  datatype Badge =
    | Newcomer | FirstXp | Apprentice | Veteran | HoneyMaster | OnStreak | Sharpshooter | FirstBlock
    | WallBuilder | Student | Scholar | Detective | CriticalCatcher | Globalist | FlagHunter | Duelist | Champion

  /** An entry of the activity log; its icon and text are determined by the action. */
  datatype Item = Item(at: Time, action: Action)

  datatype Progress = Progress(
    xp: int, streak: nat, best: nat, counts: Counts, activity: seq<Item>, badges: map<Badge, Time>)

  /** Platform statistics and lesson catalogues that badge checks look at. */
  datatype Context = Context(
    criticalSessions: nat, countries: nat,
    attackDone: set<string>, defendDone: set<string>, allAttack: set<string>, allDefend: set<string>)

  const ACTIVITY_MAX := 50
  const NO_COUNTS := Counts({}, 0, 0, 0, 0, 0, 0, 0)
  const NEW_PROGRESS := Progress(0, 0, 0, NO_COUNTS, [], map[])
  const NO_CONTEXT := Context(0, 0, {}, {}, {}, {})

  const BADGES := [
    Newcomer, FirstXp, Apprentice, Veteran, HoneyMaster, OnStreak, Sharpshooter, FirstBlock,
    WallBuilder, Student, Scholar, Detective, CriticalCatcher, Globalist, FlagHunter, Duelist, Champion]

  // ---- specification -------------------------------------------------------

  function Delta(a: Action): int {
    match a
    case LessonComplete(_, _) => 15
    case CorrectLabel => 10
    case WrongLabel => -2
    case CanaryFound => 5
    case Block => 3
    case DuelPlayed(_, _) => 10
    case DuelWin(_) => 25
    case Unknown(_) => 0
  }

  function LessonKey(family: string, lesson: string): string {
    family + ":" + lesson
  }

  function AddLesson(ids: set<string>, family: string, lesson: string): set<string> {
    if family != "" && lesson != "" then ids + {LessonKey(family, lesson)} else ids
  }

  function CountAction(c: Counts, a: Action): Counts {
    match a
    case LessonComplete(family, lesson) =>
      var ids := AddLesson(c.lessonIds, family, lesson);
      c.(lessonIds := ids, lessonsDone := |ids|)
    case CorrectLabel => c.(correctLabels := c.correctLabels + 1)
    case WrongLabel => c.(wrongLabels := c.wrongLabels + 1)
    case CanaryFound => c.(canaries := c.canaries + 1)
    case Block => c.(blocks := c.blocks + 1)
    case DuelPlayed(_, _) => c.(duelsPlayed := c.duelsPlayed + 1)
    case DuelWin(_) => c.(duelsWon := c.duelsWon + 1)
    case Unknown(_) => c
  }

  function Log(activity: seq<Item>, item: Item): seq<Item> {
    var all := [item] + activity;
    if |all| > ACTIVITY_MAX then all[..ACTIVITY_MAX] else all
  }

  function Apply(p: Progress, a: Action, now: Time): Progress {
    if a.Unknown? then p
    else
      var streak := if a.CorrectLabel? then p.streak + 1 else if a.WrongLabel? then 0 else p.streak;
      Progress(
        Max(0, p.xp + Delta(a)), streak, if a.CorrectLabel? && streak > p.best then streak else p.best,
        CountAction(p.counts, a), Log(p.activity, Item(now, a)), p.badges)
  }

  predicate Check(b: Badge, p: Progress, ctx: Context) {
    match b
    case Newcomer => true
    case FirstXp => p.xp > 0
    case Apprentice => p.xp >= 50
    case Veteran => p.xp >= 250
    case HoneyMaster => p.xp >= 1000
    case OnStreak => p.best >= 3
    case Sharpshooter => p.best >= 10
    case FirstBlock => p.counts.blocks >= 1
    case WallBuilder => p.counts.blocks >= 10
    case Student => p.counts.lessonsDone >= 1
    case Scholar => ctx.allAttack != {} && ctx.allAttack <= ctx.attackDone
    case Detective => ctx.allDefend != {} && ctx.allDefend <= ctx.defendDone
    case CriticalCatcher => ctx.criticalSessions > 0
    case Globalist => ctx.countries >= 5
    case FlagHunter => p.counts.canaries >= 1
    case Duelist => p.counts.duelsPlayed >= 1
    case Champion => p.counts.duelsWon >= 5
  }

  /** The badges among `bs` that are earned now and were not before. */
  function Newly(p: Progress, ctx: Context, bs: seq<Badge>): seq<Badge> {
    if bs == [] then []
    else
      var before, b := Newly(p, ctx, bs[..|bs| - 1]), bs[|bs| - 1];
      if b !in p.badges && Check(b, p, ctx) then before + [b] else before
  }

  function Stamp(badges: map<Badge, Time>, newly: seq<Badge>, now: Time): map<Badge, Time> {
    badges + map b | b in newly :: now
  }

  function Evaluate(p: Progress, ctx: Context, now: Time): Progress {
    p.(badges := Stamp(p.badges, Newly(p, ctx, BADGES), now))
  }

  // ---- the updates as written ------------------------------------------------

  class ProgressRecord {
    var xp: int
    var streak: nat
    var best: nat
    var counts: Counts
    var activity: seq<Item>
    var badges: map<Badge, Time>

    function Current(): Progress
      reads this
    {
      Progress(xp, streak, best, counts, activity, badges)
    }

    constructor (p: Progress)
      ensures Current() == p
    {
      xp, streak, best, counts, activity, badges := p.xp, p.streak, p.best, p.counts, p.activity, p.badges;
    }

    method ApplyEvent(a: Action, now: Time)
      modifies this
      ensures Current() == Apply(old(Current()), a, now)
    {
      if a.Unknown? { return; }
      xp := Max(0, xp + Delta(a));
      match a {
        case LessonComplete(family, lesson) =>
          var done := counts.lessonIds;
          if family != "" && lesson != "" { done := done + {LessonKey(family, lesson)}; }
          counts := counts.(lessonIds := done, lessonsDone := |done|);
        case CorrectLabel =>
          streak := streak + 1;
          if streak > best { best := streak; }
          counts := counts.(correctLabels := counts.correctLabels + 1);
        case WrongLabel =>
          streak := 0;
          counts := counts.(wrongLabels := counts.wrongLabels + 1);
        case CanaryFound => counts := counts.(canaries := counts.canaries + 1);
        case Block => counts := counts.(blocks := counts.blocks + 1);
        case DuelPlayed(_, _) => counts := counts.(duelsPlayed := counts.duelsPlayed + 1);
        case DuelWin(_) => counts := counts.(duelsWon := counts.duelsWon + 1);
        case Unknown(_) => assert false;
      }
      activity := [Item(now, a)] + activity;
      if |activity| > ACTIVITY_MAX { activity := activity[..ACTIVITY_MAX]; }
    }

    method EvaluateBadges(ctx: Context, now: Time) returns (newly: seq<Badge>)
      modifies this
      ensures Current() == Evaluate(old(Current()), ctx, now)
      ensures newly == Newly(old(Current()), ctx, BADGES)
    {
      hide Check, Newly, Stamp;
      ghost var p := Current();
      NoneYet(p, ctx, now);
      newly := [];
      var i := 0;
      while i < |BADGES|
        invariant 0 <= i <= |BADGES|
        invariant newly == Newly(p, ctx, BADGES[..i])
        invariant Current() == p.(badges := Stamp(p.badges, newly, now))
      {
        var b := BADGES[i];
        BadgeStep(p, ctx, now, i);
        if b !in badges && Check(b, Current(), ctx) {
          badges := badges[b := now];
          newly := newly + [b];
        }
        i := i + 1;
      }
      assert BADGES[..|BADGES|] == BADGES;
    }
  }

  function Rank(b: Badge): nat {
    match b
    case Newcomer => 0 case FirstXp => 1 case Apprentice => 2 case Veteran => 3 case HoneyMaster => 4
    case OnStreak => 5 case Sharpshooter => 6 case FirstBlock => 7 case WallBuilder => 8 case Student => 9
    case Scholar => 10 case Detective => 11 case CriticalCatcher => 12 case Globalist => 13
    case FlagHunter => 14 case Duelist => 15 case Champion => 16
  }

  lemma BadgesDistinct(i: nat)
    requires i < |BADGES|
    ensures BADGES[i] !in BADGES[..i]
  {
    assert forall k :: 0 <= k < |BADGES| ==> Rank(BADGES[k]) == k;
  }

  lemma {:induction false} NewlyFrom(p: Progress, ctx: Context, bs: seq<Badge>)
    ensures forall b :: b in Newly(p, ctx, bs) <==> b in bs && b !in p.badges && Check(b, p, ctx)
  {
    hide Check;
    if bs == [] {
    } else {
      NewlyFrom(p, ctx, bs[..|bs| - 1]);
      assert bs == bs[..|bs| - 1] + [bs[|bs| - 1]];
    }
  }

  lemma CheckIgnoresBadges(b: Badge, p: Progress, q: Progress, ctx: Context)
    requires p.(badges := q.badges) == q
    ensures Check(b, p, ctx) == Check(b, q, ctx)
  {
  }

  lemma NoneYet(p: Progress, ctx: Context, now: Time)
    ensures Newly(p, ctx, BADGES[..0]) == [] && p.(badges := Stamp(p.badges, [], now)) == p
  {
    assert BADGES[..0] == [];
  }

  /** Checking one more badge against the record as it is after the badges before it. */
  lemma BadgeStep(p: Progress, ctx: Context, now: Time, i: nat)
    requires i < |BADGES|
    ensures var (b, newly) := (BADGES[i], Newly(p, ctx, BADGES[..i]));
      var q := p.(badges := Stamp(p.badges, newly, now));
      if b !in q.badges && Check(b, q, ctx)
        then Newly(p, ctx, BADGES[..i + 1]) == newly + [b] && Stamp(p.badges, newly + [b], now) == q.badges[b := now]
        else Newly(p, ctx, BADGES[..i + 1]) == newly
  {
    hide Check;
    BadgesDistinct(i);
    assert BADGES[..i + 1] == BADGES[..i] + [BADGES[i]];
    CheckOne(p, ctx, now, BADGES[..i], BADGES[i]);
  }

  lemma CheckOne(p: Progress, ctx: Context, now: Time, bs: seq<Badge>, b: Badge)
    requires b !in bs
    ensures var newly := Newly(p, ctx, bs);
      var q := p.(badges := Stamp(p.badges, newly, now));
      if b !in q.badges && Check(b, q, ctx)
        then Newly(p, ctx, bs + [b]) == newly + [b] && Stamp(p.badges, newly + [b], now) == q.badges[b := now]
        else Newly(p, ctx, bs + [b]) == newly
  {
    hide Check;
    var newly := Newly(p, ctx, bs);
    NewlyFrom(p, ctx, bs);
    NewlyOne(p, ctx, bs, b);
    hide Newly;
    CheckIgnoresBadges(b, p.(badges := Stamp(p.badges, newly, now)), p, ctx);
    StampOne(p.badges, newly, b, now);
  }

  lemma NewlyOne(p: Progress, ctx: Context, bs: seq<Badge>, b: Badge)
    ensures Newly(p, ctx, bs + [b]) ==
      Newly(p, ctx, bs) + if b !in p.badges && Check(b, p, ctx) then [b] else []
  {
    hide Check;
    assert (bs + [b])[..|bs|] == bs;
  }

  lemma StampOne(badges: map<Badge, Time>, newly: seq<Badge>, b: Badge, now: Time)
    ensures Stamp(badges, newly + [b], now) == Stamp(badges, newly, now)[b := now]
  {
  }
}
