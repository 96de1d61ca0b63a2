/** A member's progress as a function of the actions so far. */
module ProgressionHistory {
  import opened Numbers
  import opened Progression

  /** A history: actions and badge evaluations, oldest first. */
  datatype Step = Act(action: Action, now: Time) | Badges(ctx: Context, now: Time)

  function Do(p: Progress, s: Step): Progress {
    match s
    case Act(a, now) => Apply(p, a, now)
    case Badges(ctx, now) => Evaluate(p, ctx, now)
  }

  function After(p: Progress, h: seq<Step>): Progress {
    if h == [] then p else Do(After(p, h[..|h| - 1]), h[|h| - 1])
  }

  predicate Known(s: Step) {
    s.Act? && !s.action.Unknown?
  }

  /** The known actions of a history. */
  function Actions(h: seq<Step>): seq<Item> {
    if h == [] then []
    else
      var before, s := Actions(h[..|h| - 1]), h[|h| - 1];
      if Known(s) then before + [Item(s.now, s.action)] else before
  }

  // ---- XP ---------------------------------------------------------------------

  function Sum(items: seq<Item>): int {
    if items == [] then 0 else Sum(items[..|items| - 1]) + Delta(items[|items| - 1].action)
  }

  lemma SumAdd(items: seq<Item>, i: Item)
    ensures Sum(items + [i]) == Sum(items) + Delta(i.action)
  {
    assert (items + [i])[..|items|] == items;
  }

  /** `xp` is the largest of the plain total and the totals earned since some moment. */
  predicate IsFlooredTotal(xp: int, x0: int, items: seq<Item>) {
    && xp >= x0 + Sum(items)
    && (forall k :: 1 <= k <= |items| ==> xp >= Sum(items[k..]))
    && (xp == x0 + Sum(items) || exists k :: 1 <= k <= |items| && xp == Sum(items[k..]))
  }

  lemma FlooredStep(xp: int, x0: int, items: seq<Item>, i: Item)
    requires IsFlooredTotal(xp, x0, items)
    ensures IsFlooredTotal(Max(0, xp + Delta(i.action)), x0, items + [i])
  {
    hide Delta, Sum;
    var all, xp' := items + [i], Max(0, xp + Delta(i.action));
    SumAdd(items, i);
    assert all[|all|..] == [] && Sum([]) == 0 by { NoSum(); }
    forall k | 1 <= k <= |items| ensures Sum(all[k..]) == Sum(items[k..]) + Delta(i.action) {
      assert all[k..] == items[k..] + [i];
      SumAdd(items[k..], i);
    }
    if xp' == 0 {
      assert xp' == Sum(all[|all|..]);
    } else if xp != x0 + Sum(items) {
      var k :| 1 <= k <= |items| && xp == Sum(items[k..]);
      assert xp' == Sum(all[k..]);
    }
  }

  lemma NoSum()
    ensures Sum([]) == 0
  {
  }

  /** XP, floored at 0 after every action, is max(x0 + S_n, max over k of S_n - S_k). */
  lemma {:induction false} XpClosedForm(p: Progress, h: seq<Step>)
    ensures IsFlooredTotal(After(p, h).xp, p.xp, Actions(h))
  {
    hide IsFlooredTotal, CountAction, Log, Newly, Delta, Sum;
    if h == [] {
      NothingYet(p.xp);
    } else {
      XpClosedForm(p, h[..|h| - 1]);
      var s := h[|h| - 1];
      if Known(s) {
        FlooredStep(After(p, h[..|h| - 1]).xp, p.xp, Actions(h[..|h| - 1]), Item(s.now, s.action));
      }
    }
  }

  lemma NothingYet(x0: int)
    ensures IsFlooredTotal(x0, x0, [])
  {
  }

  // ---- streaks -------------------------------------------------------------------

  function Correct(items: seq<Item>): nat {
    if items == [] then 0
    else Correct(items[..|items| - 1]) + if items[|items| - 1].action.CorrectLabel? then 1 else 0
  }

  predicate NoWrong(items: seq<Item>) {
    forall i :: i in items ==> !i.action.WrongLabel?
  }

  /** The correct labels of a stretch; one that begins with the history continues the old streak. */
  function Stretch(items: seq<Item>, i: nat, j: nat, s0: nat): nat
    requires i <= j <= |items|
  {
    Correct(items[i..j]) + if i == 0 then s0 else 0
  }

  /** `streak` counts the correct labels since the last wrong one. */
  predicate IsCurrentRun(streak: nat, s0: nat, items: seq<Item>) {
    exists i :: 0 <= i <= |items| && NoWrong(items[i..|items|]) && streak == Stretch(items, i, |items|, s0)
      && (i == 0 || items[i - 1].action.WrongLabel?)
  }

  /** `best` is the longest stretch without a wrong label, or the old record. */
  predicate IsLongestRun(best: nat, b0: nat, s0: nat, items: seq<Item>) {
    && best >= b0
    && (forall i, j :: 0 <= i <= j <= |items| && NoWrong(items[i..j]) ==> Stretch(items, i, j, s0) <= best)
    && (best == b0 || exists i, j :: 0 <= i <= j <= |items| && NoWrong(items[i..j]) && best == Stretch(items, i, j, s0))
  }

  lemma CorrectAdd(items: seq<Item>, i: Item)
    ensures Correct(items + [i]) == Correct(items) + if i.action.CorrectLabel? then 1 else 0
  {
    assert (items + [i])[..|items|] == items;
  }

  lemma {:induction false} CorrectMonotone(items: seq<Item>, k: nat)
    requires k <= |items|
    ensures Correct(items[k..]) <= Correct(items)
  {
    if k == |items| {
    } else {
      var init := items[..|items| - 1];
      assert items[k..][..|items[k..]| - 1] == init[k..];
      CorrectMonotone(init, k);
    }
  }

  lemma StretchAdd(items: seq<Item>, i: Item, k: nat, s0: nat)
    requires k <= |items|
    ensures Stretch(items + [i], k, |items| + 1, s0)
         == Stretch(items, k, |items|, s0) + if i.action.CorrectLabel? then 1 else 0
    ensures NoWrong((items + [i])[k..|items| + 1]) <==> NoWrong(items[k..|items|]) && !i.action.WrongLabel?
  {
    assert (items + [i])[k..|items| + 1] == items[k..|items|] + [i];
    CorrectAdd(items[k..|items|], i);
  }

  lemma RunStep(streak: nat, s0: nat, items: seq<Item>, i: Item)
    requires IsCurrentRun(streak, s0, items)
    ensures IsCurrentRun(
      if i.action.CorrectLabel? then streak + 1 else if i.action.WrongLabel? then 0 else streak, s0, items + [i])
  {
    hide Correct, NoWrong;
    var all := items + [i];
    if i.action.WrongLabel? {
      assert all[|all|..|all|] == [] && NoWrong([]) && Correct([]) == 0 by { EmptyRun(); }
      assert Stretch(all, |all|, |all|, s0) == 0;
    } else {
      var k :| 0 <= k <= |items| && NoWrong(items[k..|items|]) && streak == Stretch(items, k, |items|, s0)
        && (k == 0 || items[k - 1].action.WrongLabel?);
      StretchAdd(items, i, k, s0);
    }
  }

  lemma EmptyRun()
    ensures NoWrong([]) && Correct([]) == 0
  {
  }

  lemma WrongInside(items: seq<Item>, k: nat, i: nat)
    requires k <= |items| && i <= |items|
    ensures k < i && items[i - 1].action.WrongLabel? ==> !NoWrong(items[k..|items|])
  {
    if k < i {
      assert items[k..|items|][i - 1 - k] == items[i - 1];
    }
  }

  /** No stretch that ends now is longer than the current run. */
  lemma CurrentIsLongestNow(streak: nat, s0: nat, items: seq<Item>, k: nat)
    requires IsCurrentRun(streak, s0, items) && k <= |items| && NoWrong(items[k..|items|])
    ensures Stretch(items, k, |items|, s0) <= streak
  {
    var i :| 0 <= i <= |items| && NoWrong(items[i..|items|]) && streak == Stretch(items, i, |items|, s0)
      && (i == 0 || items[i - 1].action.WrongLabel?);
    WrongInside(items, k, i);
    assert items[k..|items|] == items[i..|items|][k - i..];
    CorrectMonotone(items[i..|items|], k - i);
  }

  lemma SameStretch(items: seq<Item>, i: Item, j: nat, k: nat, s0: nat)
    requires j <= k <= |items|
    ensures (items + [i])[j..k] == items[j..k] && Stretch(items + [i], j, k, s0) == Stretch(items, j, k, s0)
  {
    assert (items + [i])[j..k] == items[j..k];
  }

  lemma LongestStep(streak: nat, best: nat, b0: nat, s0: nat, items: seq<Item>, i: Item)
    requires IsCurrentRun(streak, s0, items) && IsLongestRun(best, b0, s0, items)
    requires streak <= best
    ensures IsLongestRun(if i.action.CorrectLabel? && streak + 1 > best then streak + 1 else best, b0, s0, items + [i])
  {
    hide Correct, NoWrong, IsCurrentRun, Stretch;
    var all := items + [i];
    var best' := if i.action.CorrectLabel? && streak + 1 > best then streak + 1 else best;
    forall j, k | 0 <= j <= k <= |all| && NoWrong(all[j..k]) ensures Stretch(all, j, k, s0) <= best' {
      if k <= |items| {
        SameStretch(items, i, j, k, s0);
      } else if j <= |items| {
        StretchAdd(items, i, j, s0);
        CurrentIsLongestNow(streak, s0, items, j);
      } else {
        EmptyStretch(all, s0);
      }
    }
    if best' != best {
      var k := CurrentStart(streak, s0, items);
      StretchAdd(items, i, k, s0);
      assert best' == Stretch(all, k, |all|, s0);
    } else if best != b0 {
      var j, k :| 0 <= j <= k <= |items| && NoWrong(items[j..k]) && best == Stretch(items, j, k, s0);
      SameStretch(items, i, j, k, s0);
    }
  }

  lemma EmptyStretch(items: seq<Item>, s0: nat)
    requires items != []
    ensures Stretch(items, |items|, |items|, s0) == 0
  {
    assert items[|items|..|items|] == [];
  }

  lemma CurrentStart(streak: nat, s0: nat, items: seq<Item>) returns (k: nat)
    requires IsCurrentRun(streak, s0, items)
    ensures k <= |items| && NoWrong(items[k..|items|]) && streak == Stretch(items, k, |items|, s0)
  {
    k :| 0 <= k <= |items| && NoWrong(items[k..|items|]) && streak == Stretch(items, k, |items|, s0)
      && (k == 0 || items[k - 1].action.WrongLabel?);
  }

  lemma StreakStart(s0: nat, b0: nat)
    requires s0 <= b0
    ensures IsCurrentRun(s0, s0, []) && IsLongestRun(b0, b0, s0, [])
  {
    var none: seq<Item> := [];
    assert none[0..0] == [] && Stretch(none, 0, 0, s0) == s0 && NoWrong(none[0..0]);
  }

  /** `streak` is the current and `best_streak` the longest run of correct labels. */
  lemma {:induction false} StreakClosedForm(p: Progress, h: seq<Step>)
    requires p.streak <= p.best
    ensures var q := After(p, h);
      && q.streak <= q.best
      && IsCurrentRun(q.streak, p.streak, Actions(h)) && IsLongestRun(q.best, p.best, p.streak, Actions(h))
  {
    hide IsCurrentRun, IsLongestRun, CountAction, Log, Newly, Delta;
    if h == [] {
      StreakStart(p.streak, p.best);
    } else {
      StreakClosedForm(p, h[..|h| - 1]);
      var s, q, items := h[|h| - 1], After(p, h[..|h| - 1]), Actions(h[..|h| - 1]);
      if Known(s) {
        RunStep(q.streak, p.streak, items, Item(s.now, s.action));
        LongestStep(q.streak, q.best, p.best, p.streak, items, Item(s.now, s.action));
      }
    }
  }

  // ---- the other counters ------------------------------------------------------------

  datatype Kind = CorrectLabels | WrongLabels | Canaries | Blocks | DuelsPlayed | DuelsWon

  predicate IsOf(a: Action, k: Kind) {
    match k
    case CorrectLabels => a.CorrectLabel?
    case WrongLabels => a.WrongLabel?
    case Canaries => a.CanaryFound?
    case Blocks => a.Block?
    case DuelsPlayed => a.DuelPlayed?
    case DuelsWon => a.DuelWin?
  }

  function Counter(c: Counts, k: Kind): nat {
    match k
    case CorrectLabels => c.correctLabels
    case WrongLabels => c.wrongLabels
    case Canaries => c.canaries
    case Blocks => c.blocks
    case DuelsPlayed => c.duelsPlayed
    case DuelsWon => c.duelsWon
  }

  function Occurrences(items: seq<Item>, k: Kind): nat {
    if items == [] then 0
    else Occurrences(items[..|items| - 1], k) + if IsOf(items[|items| - 1].action, k) then 1 else 0
  }

  lemma OccurrencesAdd(items: seq<Item>, i: Item, k: Kind)
    ensures Occurrences(items + [i], k) == Occurrences(items, k) + if IsOf(i.action, k) then 1 else 0
  {
    assert (items + [i])[..|items|] == items;
  }

  /** Every counter counts its own action and nothing else. */
  lemma {:induction false} CountersClosedForm(p: Progress, h: seq<Step>, k: Kind)
    ensures Counter(After(p, h).counts, k) == Counter(p.counts, k) + Occurrences(Actions(h), k)
  {
    hide Log, Newly, Delta, Occurrences;
    if h == [] {
      assert Occurrences([], k) == 0 by { NoOccurrences(k); }
    } else {
      CountersClosedForm(p, h[..|h| - 1], k);
      var s := h[|h| - 1];
      if Known(s) {
        OccurrencesAdd(Actions(h[..|h| - 1]), Item(s.now, s.action), k);
      }
    }
  }

  lemma NoOccurrences(k: Kind)
    ensures Occurrences([], k) == 0
  {
  }

  // ---- lessons ---------------------------------------------------------------------

  /** The distinct lessons completed, as pairs of family and id. */
  function Lessons(items: seq<Item>): set<(string, string)> {
    if items == [] then {}
    else
      var before, a := Lessons(items[..|items| - 1]), items[|items| - 1].action;
      if a.LessonComplete? && a.family != "" && a.lesson != "" then before + {(a.family, a.lesson)} else before
  }

  function Keys(lessons: set<(string, string)>): set<string> {
    set l | l in lessons :: LessonKey(l.0, l.1)
  }

  predicate CountsTheIds(c: Counts) {
    c.lessonsDone == |c.lessonIds|
  }

  lemma LessonsAdd(items: seq<Item>, i: Item)
    ensures Keys(Lessons(items + [i])) ==
      if i.action.LessonComplete? then AddLesson(Keys(Lessons(items)), i.action.family, i.action.lesson)
      else Keys(Lessons(items))
  {
    hide LessonKey;
    assert (items + [i])[..|items|] == items;
    var a := i.action;
    if a.LessonComplete? && a.family != "" && a.lesson != "" {
      assert Keys(Lessons(items) + {(a.family, a.lesson)}) == Keys(Lessons(items)) + {LessonKey(a.family, a.lesson)};
    }
  }

  lemma {:induction false} LessonIds(p: Progress, h: seq<Step>)
    requires CountsTheIds(p.counts)
    ensures var c := After(p, h).counts;
      CountsTheIds(c) && c.lessonIds == p.counts.lessonIds + Keys(Lessons(Actions(h)))
  {
    hide Log, Newly, Delta, LessonKey, Lessons, Keys;
    if h == [] {
      assert Keys(Lessons([])) == {} by { NoLessons(); }
    } else {
      LessonIds(p, h[..|h| - 1]);
      var s, items := h[|h| - 1], Actions(h[..|h| - 1]);
      if Known(s) {
        LessonsAdd(items, Item(s.now, s.action));
      }
    }
  }

  lemma NoLessons()
    ensures Keys(Lessons([])) == {}
  {
  }

  predicate PlainFamilies(lessons: set<(string, string)>) {
    forall l :: l in lessons ==> ':' !in l.0
  }

  /** A family without a colon can be read off the key. */
  lemma KeyInjective(a: (string, string), b: (string, string))
    requires ':' !in a.0 && ':' !in b.0 && LessonKey(a.0, a.1) == LessonKey(b.0, b.1)
    ensures a == b
  {
    ColonAfterFamily(a, |b.0|);
    ColonAfterFamily(b, |a.0|);
    var key := LessonKey(a.0, a.1);
    assert key[|a.0|] == ':' && key[|b.0|] == ':';
    assert a.0 == key[..|a.0|] && b.0 == key[..|b.0|];
    assert a.1 == key[|a.0| + 1..] && b.1 == key[|b.0| + 1..];
  }

  lemma ColonAfterFamily(l: (string, string), n: nat)
    requires ':' !in l.0
    ensures n < |LessonKey(l.0, l.1)| && LessonKey(l.0, l.1)[n] == ':' ==> n >= |l.0|
  {
    if n < |l.0| {
      assert LessonKey(l.0, l.1)[n] == l.0[n];
    }
  }

  predicate SharesKey(l: (string, string), lessons: set<(string, string)>) {
    exists m :: m in lessons && m != l && LessonKey(m.0, m.1) == LessonKey(l.0, l.1)
  }

  predicate DistinctKeys(lessons: set<(string, string)>) {
    forall l :: l in lessons ==> !SharesKey(l, lessons)
  }

  lemma DistinctWithout(lessons: set<(string, string)>, l: (string, string))
    requires l in lessons
    ensures DistinctKeys(lessons) <==> DistinctKeys(lessons - {l}) && !SharesKey(l, lessons)
    ensures SharesKey(l, lessons) <==> LessonKey(l.0, l.1) in Keys(lessons - {l})
  {
    hide LessonKey;
    var rest := lessons - {l};
    if DistinctKeys(lessons) {
      forall m | m in rest ensures !SharesKey(m, rest) {
        assert !SharesKey(m, lessons);
      }
    }
    if DistinctKeys(rest) && !SharesKey(l, lessons) {
      forall m | m in lessons ensures !SharesKey(m, lessons) {
        if m != l {
          assert !SharesKey(m, rest);
        }
      }
    }
  }

  lemma {:induction false} KeysCount(lessons: set<(string, string)>)
    ensures |Keys(lessons)| <= |lessons|
    ensures |Keys(lessons)| == |lessons| <==> DistinctKeys(lessons)
    decreases |lessons|
  {
    hide LessonKey, SharesKey;
    if lessons == {} {
    } else {
      var l :| l in lessons;
      var rest := lessons - {l};
      KeysCount(rest);
      DistinctWithout(lessons, l);
      assert Keys(lessons) == Keys(rest) + {LessonKey(l.0, l.1)};
      hide DistinctKeys;
    }
  }

  /** `lessonsDone` is the number of distinct lessons completed exactly when no two of them share a
      key, which colons in the family names alone can bring about. */
  lemma LessonsDoneCountIff(h: seq<Step>)
    ensures var lessons := Lessons(Actions(h));
      && (After(NEW_PROGRESS, h).counts.lessonsDone == |lessons| <==> DistinctKeys(lessons))
      && (PlainFamilies(lessons) ==> DistinctKeys(lessons))
  {
    hide Lessons, After, LessonKey;
    var lessons := Lessons(Actions(h));
    NewCounts(h);
    KeysCount(lessons);
    if PlainFamilies(lessons) {
      forall l | l in lessons ensures !SharesKey(l, lessons) {
        if m :| m in lessons && m != l && LessonKey(m.0, m.1) == LessonKey(l.0, l.1) {
          KeyInjective(l, m);
        }
      }
    }
  }

  lemma NewCounts(h: seq<Step>)
    ensures After(NEW_PROGRESS, h).counts.lessonsDone == |Keys(Lessons(Actions(h)))|
  {
    hide Lessons, Keys, LessonKey;
    LessonIds(NEW_PROGRESS, h);
    assert {} + Keys(Lessons(Actions(h))) == Keys(Lessons(Actions(h)));
  }

  /** A colon in a family makes two lessons share a key, and they count as one. */
  lemma ColonMergesLessons()
    ensures var h := [Act(LessonComplete("a", "b:c"), 0), Act(LessonComplete("a:b", "c"), 1)];
      |Lessons(Actions(h))| == 2 && After(NEW_PROGRESS, h).counts.lessonsDone == 1
  {
    var first, second := LessonComplete("a", "b:c"), LessonComplete("a:b", "c");
    var h := [Act(first, 0), Act(second, 1)];
    hide After, Lessons, Actions, Keys, LessonKey;
    TwoLessons(first, 0, second, 1);
    OneKey();
    NewCounts(h);
  }

  lemma OneKey()
    ensures Keys({("a", "b:c"), ("a:b", "c")}) == {"a:b:c"}
  {
    assert LessonKey("a", "b:c") == "a:b:c" == LessonKey("a:b", "c");
  }

  lemma TwoLessons(first: Action, t0: int, second: Action, t1: int)
    requires first.LessonComplete? && first.family != "" && first.lesson != ""
    requires second.LessonComplete? && second.family != "" && second.lesson != ""
    ensures Lessons(Actions([Act(first, t0), Act(second, t1)])) == {(first.family, first.lesson), (second.family, second.lesson)}
  {
    OneMoreLesson([], first, t0);
    assert [] + [Act(first, t0)] == [Act(first, t0)];
    OneMoreLesson([Act(first, t0)], second, t1);
    assert [Act(first, t0)] + [Act(second, t1)] == [Act(first, t0), Act(second, t1)];
  }

  lemma OneMoreLesson(h: seq<Step>, a: Action, now: int)
    requires a.LessonComplete? && a.family != "" && a.lesson != ""
    ensures Lessons(Actions(h + [Act(a, now)])) == Lessons(Actions(h)) + {(a.family, a.lesson)}
  {
    assert (h + [Act(a, now)])[..|h|] == h;
    var items, i := Actions(h), Item(now, a);
    assert Actions(h + [Act(a, now)]) == items + [i];
    assert (items + [i])[..|items|] == items;
  }

  // ---- activity --------------------------------------------------------------------------

  function Newest(activity: seq<Item>): (r: seq<Item>) {
    if |activity| > ACTIVITY_MAX then activity[..ACTIVITY_MAX] else activity
  }

  function Reversed(items: seq<Item>): (r: seq<Item>)
    ensures |r| == |items|
    ensures forall i :: 0 <= i < |r| ==> r[i] == items[|items| - 1 - i]
  {
    if items == [] then [] else [items[|items| - 1]] + Reversed(items[..|items| - 1])
  }

  lemma NewestOfFew(activity: seq<Item>)
    requires |activity| <= ACTIVITY_MAX
    ensures Newest(activity) == activity
  {
  }

  lemma LogNewest(activity: seq<Item>, i: Item)
    ensures Log(Newest(activity), i) == Newest([i] + activity)
  {
  }

  /** `activity` holds the last 50 known actions, newest first. */
  lemma ActivityIsNewest(p: Progress, h: seq<Step>)
    requires |p.activity| <= 50
    ensures var all := Reversed(Actions(h)) + p.activity;
      After(p, h).activity == if |all| > 50 then all[..50] else all
  {
    hide After, Reversed, Actions;
    ActivityLog(p, h);
  }

  lemma {:induction false} ActivityLog(p: Progress, h: seq<Step>)
    requires |p.activity| <= ACTIVITY_MAX
    ensures After(p, h).activity == Newest(Reversed(Actions(h)) + p.activity)
  {
    hide CountAction, Newly, Delta, Log, Newest;
    if h == [] {
      NewestOfFew(p.activity);
      assert Reversed([]) + p.activity == p.activity;
    } else {
      ActivityLog(p, h[..|h| - 1]);
      var s, items := h[|h| - 1], Actions(h[..|h| - 1]);
      if Known(s) {
        var i := Item(s.now, s.action);
        assert (items + [i])[..|items|] == items;
        assert Reversed(items + [i]) + p.activity == [i] + (Reversed(items) + p.activity);
        LogNewest(Reversed(items) + p.activity, i);
      }
    }
  }

  // ---- badges ------------------------------------------------------------------------------

  /** A badge once earned is never lost, and keeps its date. */
  lemma {:induction false} BadgesKept(p: Progress, h: seq<Step>)
    ensures forall b :: b in p.badges ==> b in After(p, h).badges && After(p, h).badges[b] == p.badges[b]
  {
    hide CountAction, Log, Delta, Newly;
    if h == [] {
    } else {
      BadgesKept(p, h[..|h| - 1]);
      var s, q := h[|h| - 1], After(p, h[..|h| - 1]);
      if s.Badges? {
        NewlyFrom(q, s.ctx, BADGES);
      }
    }
  }

  /** An evaluation awards exactly the badges whose check holds; a second one awards nothing. */
  lemma EvaluateExact(p: Progress, ctx: Context, now: Time)
    ensures var q := Evaluate(p, ctx, now);
      && (forall b :: b in q.badges <==> b in p.badges || Check(b, p, ctx))
      && (forall b :: b in q.badges ==> q.badges[b] == if b in p.badges then p.badges[b] else now)
      && Newly(q, ctx, BADGES) == []
  {
    hide Check;
    var q := Evaluate(p, ctx, now);
    NewlyFrom(p, ctx, BADGES);
    NewlyFrom(q, ctx, BADGES);
    forall b: Badge ensures b in BADGES { AllListed(b); }
    forall b ensures Check(b, p, ctx) == Check(b, q, ctx) { CheckIgnoresBadges(b, p, q, ctx); }
    NoneIn(Newly(q, ctx, BADGES));
  }

  lemma NoneIn(bs: seq<Badge>)
    ensures (forall b :: b !in bs) ==> bs == []
  {
    if bs != [] {
      assert bs[0] in bs;
    }
  }

  lemma AllListed(b: Badge)
    ensures b in BADGES
  {
    assert BADGES[Rank(b)] == b;
  }

  // ---- what an action is worth, and what earns a badge --------------------------------------------

  function Completions(items: seq<Item>): nat {
    if items == [] then 0
    else Completions(items[..|items| - 1]) + if items[|items| - 1].action.LessonComplete? then 1 else 0
  }

  /** The plain total of a history, action by action. */
  lemma {:induction false} SumByAction(items: seq<Item>)
    ensures Sum(items) == 15 * Completions(items)
      + 10 * Occurrences(items, CorrectLabels) - 2 * Occurrences(items, WrongLabels)
      + 5 * Occurrences(items, Canaries) + 3 * Occurrences(items, Blocks)
      + 10 * Occurrences(items, DuelsPlayed) + 25 * Occurrences(items, DuelsWon)
  {
    if items == [] {
    } else {
      SumByAction(items[..|items| - 1]);
    }
  }

  /** Whether a record without badges has this one after an evaluation. */
  predicate Earns(p: Progress, ctx: Context, b: Badge) {
    b in Evaluate(p.(badges := map[]), ctx, 0).badges
  }

  lemma EarnsIff(p: Progress, ctx: Context, b: Badge)
    ensures Earns(p, ctx, b) <==> Check(b, p, ctx)
  {
    hide Newly, Stamp, Check;
    var q := p.(badges := map[]);
    EvaluateExact(q, ctx, 0);
    CheckIgnoresBadges(b, q, p, ctx);
  }

  /** The badges for XP and streaks. */
  lemma ProgressBadges(p: Progress, ctx: Context)
    ensures Earns(p, ctx, Newcomer) && (Earns(p, ctx, FirstXp) <==> p.xp > 0)
    ensures Earns(p, ctx, Apprentice) <==> p.xp >= 50
    ensures Earns(p, ctx, Veteran) <==> p.xp >= 250
    ensures Earns(p, ctx, HoneyMaster) <==> p.xp >= 1000
    ensures Earns(p, ctx, OnStreak) <==> p.best >= 3
    ensures Earns(p, ctx, Sharpshooter) <==> p.best >= 10
  {
    hide Earns;
    forall b { EarnsIff(p, ctx, b); }
  }

  /** The badges for what was done. */
  lemma CounterBadges(p: Progress, ctx: Context)
    ensures var c := p.counts;
      && (Earns(p, ctx, FirstBlock) <==> c.blocks >= 1) && (Earns(p, ctx, WallBuilder) <==> c.blocks >= 10)
      && (Earns(p, ctx, Student) <==> c.lessonsDone >= 1) && (Earns(p, ctx, FlagHunter) <==> c.canaries >= 1)
      && (Earns(p, ctx, Duelist) <==> c.duelsPlayed >= 1) && (Earns(p, ctx, Champion) <==> c.duelsWon >= 5)
  {
    hide Earns;
    forall b { EarnsIff(p, ctx, b); }
  }

  /** The badges for the platform's statistics and for finishing all lessons of a kind, if there are any. */
  lemma ContextBadges(p: Progress, ctx: Context)
    ensures Earns(p, ctx, CriticalCatcher) <==> ctx.criticalSessions >= 1
    ensures Earns(p, ctx, Globalist) <==> ctx.countries >= 5
    ensures Earns(p, ctx, Scholar) <==> ctx.allAttack != {} && forall l :: l in ctx.allAttack ==> l in ctx.attackDone
    ensures Earns(p, ctx, Detective) <==> ctx.allDefend != {} && forall l :: l in ctx.allDefend ==> l in ctx.defendDone
  {
    hide Earns;
    forall b { EarnsIff(p, ctx, b); }
  }
}
