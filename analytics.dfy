/**
 * The analytics routes: platform statistics (totals, active users, the five
 * templates with most forms, forms per day over the last week), one
 * template's per-question statistics, and one user's forms per template.
 * The NUMBER averages, the active percentage, the completion-time average
 * and author locations are not modelled.
 */
module Analytics {
  import opened Wrappers
  import opened Js
  import opened Collections
  import opened Counting
  import opened Store
  import opened RoleCheck

  // ---------------------------------------------------------------- platform statistics

  /** `user.count({ where: { lastActive: { gte: now - 30 days } } })`. */
  function ActiveUsers(users: map<int, User>, now: int): (r: nat)
    ensures r <= |users|
  {
    var active := set k | k in users && users[k].lastActive >= now - 30 * DayMillis;
    assert active <= users.Keys;
    SubsetCard(active, users.Keys);
    |active|
  }

  lemma SubsetCard(a: set<int>, b: set<int>)
    requires a <= b
    ensures |a| <= |b|
  {
    if a != {} {
      var x := PickElement(a);
      SubsetCard(a - {x}, b - {x});
    }
  }

  /** The number of forms filled from template `t` (`_count: { forms }`). */
  function FormsOn(forms: map<int, Form>, t: int): nat {
    |set k | k in forms && forms[k].templateId == t|
  }

  /** The sort key of the popular-template listing: a template's form count. */
  function FormCountKey(forms: map<int, Form>): int -> int {
    t => FormsOn(forms, t)
  }

  /** `template.findMany({ take: 5, orderBy: { forms: { _count: 'desc' } } })`, ties in id order. */
  function PopularTemplates(templates: map<int, Template>, forms: map<int, Form>): (r: seq<int>)
    ensures |r| <= 5 && forall t | t in r :: t in templates
  {
    TopByOrdered(SortedKeys(templates.Keys), FormCountKey(forms), 5);
    TopBy(SortedKeys(templates.Keys), FormCountKey(forms), 5)
  }

  /** No template is listed twice among the popular ones. */
  lemma PopularTemplatesMembers(templates: map<int, Template>, forms: map<int, Form>)
    ensures var r := PopularTemplates(templates, forms); forall i, j | 0 <= i < j < |r| :: r[i] != r[j]
  {
    var ids := SortedKeys(templates.Keys);
    TopByOrdered(ids, FormCountKey(forms), 5);
    TopByDistinct(ids, FormCountKey(forms), 5);
  }

  /** The popular templates come by non-increasing form count. */
  lemma PopularTemplatesOrdered(templates: map<int, Template>, forms: map<int, Form>)
    ensures var r := PopularTemplates(templates, forms);
      forall i, j | 0 <= i < j < |r| :: FormsOn(forms, r[i]) >= FormsOn(forms, r[j])
  {
    TopByOrdered(SortedKeys(templates.Keys), FormCountKey(forms), 5);
  }

  /** A template is left out only when five are listed, each with at least as many forms. */
  lemma PopularTemplatesComplete(templates: map<int, Template>, forms: map<int, Form>, t: int)
    requires t in templates && t !in PopularTemplates(templates, forms)
    ensures var r := PopularTemplates(templates, forms);
      |r| == 5 && forall i | 0 <= i < 5 :: FormsOn(forms, r[i]) >= FormsOn(forms, t)
  {
    var ids := SortedKeys(templates.Keys);
    assert t in ids;
    TopByComplete(ids, FormCountKey(forms), 5, t);
  }

  /** `toISOString().split('T')[0]` of a timestamp, as a day number (days since the epoch, UTC). */
  function DayOf(t: int): int {
    t / DayMillis
  }

  /** `form.findMany({ where: { createdAt: { gte: now - 7 days } }, select: { createdAt } })`. */
  function RecentFormTimes(forms: map<int, Form>, now: int): (r: seq<int>)
    ensures forall i | 0 <= i < |r| :: r[i] >= now - 7 * DayMillis
  {
    var ids := FindMany(forms, (f: Form) => f.createdAt >= now - 7 * DayMillis);
    seq(|ids|, i requires 0 <= i < |ids| => forms[ids[i]].createdAt)
  }

  /** How many of the timestamps fall on days `lo` to `hi - 1`. */
  function CountDays(ts: seq<int>, lo: int, hi: int): (r: nat)
    ensures r <= |ts|
  {
    if ts == [] then 0 else (if lo <= DayOf(ts[0]) < hi then 1 else 0) + CountDays(ts[1..], lo, hi)
  }

  lemma {:induction false} CountDaysAppend(ts: seq<int>, t: int, lo: int, hi: int)
    ensures CountDays(ts + [t], lo, hi) == CountDays(ts, lo, hi) + (if lo <= DayOf(t) < hi then 1 else 0)
  {
    if ts != [] {
      assert (ts + [t])[1..] == ts[1..] + [t];
      CountDaysAppend(ts[1..], t, lo, hi);
    }
  }

  lemma {:induction false} CountDaysSplit(ts: seq<int>, lo: int, mid: int, hi: int)
    requires lo <= mid <= hi
    ensures CountDays(ts, lo, hi) == CountDays(ts, lo, mid) + CountDays(ts, mid, hi)
  {
    if ts != [] {
      CountDaysSplit(ts[1..], lo, mid, hi);
    }
  }

  lemma {:induction false} CountDaysEmptyRange(ts: seq<int>, lo: int)
    ensures CountDays(ts, lo, lo) == 0
  {
    if ts != [] {
      CountDaysEmptyRange(ts[1..], lo);
    }
  }

  /** One `{ date, count }` item of `dailyForms`. */
  datatype DayCount = DayCount(day: int, count: nat)

  function DayTotal(r: seq<DayCount>): nat {
    if r == [] then 0 else r[0].count + DayTotal(r[1..])
  }

  /**
   * The `dailyForms` dictionary: the seven days up to today start at 0,
   * each fetched form increments its own day when that day is a key, and
   * the entries come out oldest first.
   */
  method DailyForms(now: int, createdAts: seq<int>) returns (r: seq<DayCount>)
    ensures |r| == 7
    ensures forall i | 0 <= i < 7 :: r[i].day == DayOf(now) - 6 + i
    ensures forall i | 0 <= i < 7 :: r[i].count == CountDays(createdAts, r[i].day, r[i].day + 1)
  {
    var today := DayOf(now);
    var daily: map<int, nat> := map[];
    var i := 0;
    while i < 7
      invariant 0 <= i <= 7
      invariant forall d :: d in daily <==> today - i < d <= today
      invariant forall d | d in daily :: daily[d] == 0
    {
      daily := daily[today - i := 0];
      i := i + 1;
    }
    var j := 0;
    while j < |createdAts|
      invariant 0 <= j <= |createdAts|
      invariant forall d :: d in daily <==> today - 7 < d <= today
      invariant forall d | d in daily :: daily[d] == CountDays(createdAts[..j], d, d + 1)
    {
      var key := DayOf(createdAts[j]);
      assert createdAts[..j + 1] == createdAts[..j] + [createdAts[j]];
      forall d | d in daily ensures CountDays(createdAts[..j + 1], d, d + 1) == CountDays(createdAts[..j], d, d + 1) + (if d == key then 1 else 0) {
        CountDaysAppend(createdAts[..j], createdAts[j], d, d + 1);
      }
      if key in daily {
        daily := daily[key := daily[key] + 1];
      }
      j := j + 1;
    }
    assert createdAts[..j] == createdAts;
    r := seq(7, k requires 0 <= k < 7 => DayCount(today - 6 + k, daily[today - 6 + k]));
  }

  /** Day counts of consecutive days add up to the forms on those days, so never to more than were fetched. */
  lemma {:induction false} DailyTotal(ts: seq<int>, lo: int, r: seq<DayCount>)
    requires forall i | 0 <= i < |r| :: r[i].day == lo + i && r[i].count == CountDays(ts, lo + i, lo + i + 1)
    ensures DayTotal(r) == CountDays(ts, lo, lo + |r|) <= |ts|
    decreases |r|
  {
    if r != [] {
      DailyTotal(ts, lo + 1, r[1..]);
      CountDaysSplit(ts, lo, lo + 1, lo + |r|);
      assert r[0].count == CountDays(ts, lo, lo + 1);
      assert DayTotal(r) == r[0].count + DayTotal(r[1..]);
      assert lo + 1 + |r[1..]| == lo + |r|;
    } else {
      CountDaysEmptyRange(ts, lo);
    }
  }

  /** A form created before the oldest bucket's day, or after today, is in no bucket. */
  lemma OutsideWindowIgnored(ts: seq<int>, now: int, t: int)
    requires DayOf(t) < DayOf(now) - 6 || DayOf(t) > DayOf(now)
    ensures CountDays(ts + [t], DayOf(now) - 6, DayOf(now) + 1) == CountDays(ts, DayOf(now) - 6, DayOf(now) + 1)
  {
    CountDaysAppend(ts, t, DayOf(now) - 6, DayOf(now) + 1);
  }

  /** `/stats` is mounted behind `checkRole(['ADMIN'])`. */
  const StatsGate: seq<JsValue> := [Str("ADMIN")]

  /** A GET passes the statistics gate exactly for an unblocked caller whose role is 'ADMIN'. */
  lemma StatsGateOnGet(user: Caller, userIdParam: Option<string>, now: int)
    ensures CheckRole(StatsGate, Some(user), userIdParam, "GET", now) == Next <==> !user.isBlocked && user.role == "ADMIN"
  {
    CheckRolePasses(StatsGate, Some(user), userIdParam, "GET", now);
    if user.role == "ADMIN" {
      assert StatsGate[0] == Str(user.role);
    }
  }

  // ---------------------------------------------------------------- template analytics

  /** The statistics of one question; NUMBER statistics are floating point and not modelled. */
  datatype Stats =
    | NumberStats
    | CheckboxStats(checkedCount: nat, total: nat)
    | PopularStats(popularAnswers: seq<Entry>)

  datatype QuestionReport = QuestionReport(questionId: int, title: Option<string>, qtype: Option<string>, stats: Stats)

  datatype TemplateReport = TemplateReport(formCount: nat, questionAnalytics: seq<QuestionReport>)

  /** The answer rows of question `q`. */
  function AnswersTo(answers: map<int, Answer>, q: int): set<int> {
    set k | k in answers && answers[k].questionId == q
  }

  /** `question.answers`: the ids of every answer to `q`, each once, in ascending id order. */
  function AnswerIds(answers: map<int, Answer>, q: int): (r: seq<int>)
    ensures |r| == |AnswersTo(answers, q)|
    ensures forall k | k in r :: k in AnswersTo(answers, q)
    ensures forall k | k in AnswersTo(answers, q) :: k in r
    ensures forall i, j | 0 <= i < j < |r| :: r[i] < r[j]
  {
    var p := (a: Answer) => a.questionId == q;
    assert Where(answers, p).Keys == AnswersTo(answers, q);
    FindMany(answers, p)
  }

  /** `question.answers.map(a => a.value)`: the value of every answer to `q`, in answer id order. */
  function AnswerValues(answers: map<int, Answer>, q: int): (r: seq<JsValue>)
    ensures |r| == |AnswerIds(answers, q)| == |AnswersTo(answers, q)|
    ensures forall i | 0 <= i < |r| :: AnswerIds(answers, q)[i] in answers && r[i] == answers[AnswerIds(answers, q)[i]].value
    ensures forall i | 0 <= i < |r| :: exists k | k in answers :: answers[k].questionId == q && answers[k].value == r[i]
  {
    var ids := AnswerIds(answers, q);
    assert forall i | 0 <= i < |ids| :: ids[i] in AnswersTo(answers, q) by {
      forall i | 0 <= i < |ids| ensures ids[i] in AnswersTo(answers, q) {
        assert ids[i] in ids;
      }
    }
    seq(|ids|, i requires 0 <= i < |ids| => answers[ids[i]].value)
  }

  predicate IsTrueString(v: JsValue) {
    v == Str("true")
  }

  /** CHECKBOX: `checkedCount` counts the answers equal to 'true', `total` all answers. */
  function CheckboxStatsOf(values: seq<JsValue>): (r: Stats)
    ensures r.CheckboxStats? && r.checkedCount == multiset(values)[Str("true")] && r.total == |values|
    ensures r.checkedCount <= r.total
  {
    FilterCount(values, IsTrueString, Str("true"));
    CheckboxStats(|Filter(values, IsTrueString)|, |values|)
  }

  /** The keys an object gets from the answer values: `acc[val]` converts each value to a string. */
  function ValueKeys(values: seq<JsValue>): (r: seq<string>)
    ensures |r| == |values| && forall i | 0 <= i < |values| :: r[i] == ToString(values[i])
  {
    seq(|values|, i requires 0 <= i < |values| => ToString(values[i]))
  }

  /** Default: the five most frequent answer strings with their counts. */
  function PopularOf(values: seq<JsValue>): (r: seq<Entry>)
    ensures |r| <= 5
    ensures forall e | e in r :: e in ObjectEntries(Tally(ValueKeys(values)))
  {
    TopByOrdered(ObjectEntries(Tally(ValueKeys(values))), CountKey, 5);
    TopEntries(ObjectEntries(Tally(ValueKeys(values))), 5)
  }

  /**
   * The popular answers are at most five distinct strings by non-increasing
   * count, each count the number of answers with that string form; an
   * answer string is left out only when five are listed, each at least as
   * frequent.
   */
  lemma PopularOfSpec(values: seq<JsValue>)
    ensures var r := PopularOf(values);
      && |r| <= 5
      && DistinctKeys(r)
      && (forall i, j | 0 <= i < j < |r| :: r[i].count >= r[j].count)
      && (forall i | 0 <= i < |r| :: r[i].count == Occurrences(ValueKeys(values), r[i].key) >= 1)
  {
    var keys := ValueKeys(values);
    var t := ObjectEntries(Tally(keys));
    EntriesTotal(keys);
    EntriesCount(keys);
    TopCounts(t, keys);
  }

  /** The top five of entries with distinct keys and true counts are ordered, distinct, and keep the true counts. */
  lemma TopCounts(t: seq<Entry>, keys: seq<string>)
    requires DistinctKeys(t)
    requires forall i | 0 <= i < |t| :: t[i].count == Occurrences(keys, t[i].key) >= 1
    ensures var r := TopEntries(t, 5);
      && |r| <= 5
      && DistinctKeys(r)
      && (forall i, j | 0 <= i < j < |r| :: r[i].count >= r[j].count)
      && (forall i | 0 <= i < |r| :: r[i].count == Occurrences(keys, r[i].key) >= 1)
  {
    TopByOrdered(t, CountKey, 5);
    TopEntriesDistinct(t, 5);
    var r := TopEntries(t, 5);
    assert forall i | 0 <= i < |r| :: r[i] in r;
  }

  lemma PopularOfComplete(values: seq<JsValue>, v: JsValue)
    requires v in values
    ensures var r := PopularOf(values);
      (exists i | 0 <= i < |r| :: r[i].key == ToString(v))
      || (|r| == 5 && forall i | 0 <= i < 5 :: r[i].count >= Occurrences(ValueKeys(values), ToString(v)))
  {
    var keys := ValueKeys(values);
    var k := ToString(v);
    var t := ObjectEntries(Tally(keys));
    var p :| 0 <= p < |values| && values[p] == v;
    assert keys[p] == k;
    EntriesComplete(keys, k);
    EntriesCount(keys);
    var q :| 0 <= q < |t| && t[q].key == k;
    assert t[q].count == Occurrences(keys, k);
    TopEntriesComplete(t, q);
    assert PopularOf(values) == TopEntries(t, 5);
  }

  /** An entry missing from the top five is outranked by each of the five. */
  lemma TopEntriesComplete(t: seq<Entry>, q: nat)
    requires q < |t|
    ensures var r := TopEntries(t, 5);
      (exists i | 0 <= i < |r| :: r[i].key == t[q].key)
      || (|r| == 5 && forall i | 0 <= i < 5 :: r[i].count >= t[q].count)
  {
    var r := TopEntries(t, 5);
    if t[q] !in r {
      TopByComplete(t, CountKey, 5, t[q]);
      assert forall i | 0 <= i < 5 :: CountKey(r[i]) == r[i].count;
    } else {
      var i :| 0 <= i < |r| && r[i] == t[q];
    }
  }

  /** `switch (question.type)`: NUMBER, CHECKBOX, or the popular answers for every other type. */
  function StatsOf(qtype: Option<string>, values: seq<JsValue>): Stats {
    if qtype == Some("NUMBER") then NumberStats
    else if qtype == Some("CHECKBOX") then CheckboxStatsOf(values)
    else PopularStats(PopularOf(values))
  }

  /** The report of one question: its id, title, type and the statistics of its answers. */
  function ReportOf(questions: map<int, Question>, answers: map<int, Answer>, id: int): QuestionReport
    requires id in questions
  {
    QuestionReport(id, questions[id].title, questions[id].qtype, StatsOf(questions[id].qtype, AnswerValues(answers, id)))
  }

  /** `questions.map(...)`: one report per question, in the given order. */
  function QuestionReports(questions: map<int, Question>, answers: map<int, Answer>, ids: seq<int>): (r: seq<QuestionReport>)
    requires forall i | 0 <= i < |ids| :: ids[i] in questions
    ensures |r| == |ids|
    ensures forall i | 0 <= i < |ids| :: r[i] == ReportOf(questions, answers, ids[i])
  {
    seq(|ids|, i requires 0 <= i < |ids| => ReportOf(questions, answers, ids[i]))
  }

  /** The owner or an administrator may see a template's analytics. */
  predicate MayAnalyse(t: Template, user: Caller) {
    t.ownerId == user.id || user.role == "ADMIN"
  }

  /** The report of an accessible template: its form count and one report per question, in question id order. */
  function TemplateReportOf(db: Tables, n: int): TemplateReport {
    var ids := FindMany(db.questions, (q: Question) => q.templateId == n);
    TemplateReport(FormsOn(db.forms, n), QuestionReports(db.questions, db.answers, ids))
  }

  /**
   * GET /template/:templateId: a NaN id fails the lookup (500), 404 for no
   * template, 403 unless owner or ADMIN, else the template's report.
   */
  function TemplateAnalytics(db: Tables, templateId: IdParam, user: Caller): (r: (int, Option<TemplateReport>))
    ensures r.0 == ServerError <==> templateId.NotANumber?
    ensures r.0 == NotFound <==> templateId.Id? && templateId.n !in db.templates
    ensures r.0 == Forbidden <==> templateId.Id? && templateId.n in db.templates && !MayAnalyse(db.templates[templateId.n], user)
    ensures r.0 == Ok <==> templateId.Id? && templateId.n in db.templates && MayAnalyse(db.templates[templateId.n], user)
    ensures r.0 == Ok ==> r.1 == Some(TemplateReportOf(db, templateId.n))
    ensures r.0 != Ok ==> r.1.None?
  {
    match templateId
    case NotANumber => (ServerError, None)
    case Id(n) =>
      if n !in db.templates then (NotFound, None)
      else if db.templates[n].ownerId != user.id && user.role != "ADMIN" then (Forbidden, None)
      else (Ok, Some(TemplateReportOf(db, n)))
  }

  /**
   * Each entry of the report is a question of the template, with the
   * statistics of that question's answers.
   */
  lemma TemplateReportEntry(db: Tables, n: int, i: nat)
    requires i < |TemplateReportOf(db, n).questionAnalytics|
    ensures var e := TemplateReportOf(db, n).questionAnalytics[i];
      && e.questionId in db.questions && db.questions[e.questionId].templateId == n
      && e.stats == StatsOf(db.questions[e.questionId].qtype, AnswerValues(db.answers, e.questionId))
  {
    var ids := FindMany(db.questions, (q: Question) => q.templateId == n);
    assert ids[i] in ids;
  }

  /** The report's entries are in question id order, so no question has two. */
  lemma TemplateReportOrdered(db: Tables, n: int)
    ensures var report := TemplateReportOf(db, n);
      forall i, j | 0 <= i < j < |report.questionAnalytics| ::
        report.questionAnalytics[i].questionId < report.questionAnalytics[j].questionId
  {
    var ids := FindMany(db.questions, (q: Question) => q.templateId == n);
    assert forall i | 0 <= i < |ids| :: ids[i] in db.questions by {
      assert forall i | 0 <= i < |ids| :: ids[i] in ids;
    }
  }

  /** Every question of the template has an entry in its report. */
  lemma TemplateReportCoversQuestions(db: Tables, n: int, k: int)
    requires k in db.questions && db.questions[k].templateId == n
    ensures exists i | 0 <= i < |TemplateReportOf(db, n).questionAnalytics| :: TemplateReportOf(db, n).questionAnalytics[i].questionId == k
  {
    var ids := FindMany(db.questions, (q: Question) => q.templateId == n);
    var i :| 0 <= i < |ids| && ids[i] == k;
    assert TemplateReportOf(db, n).questionAnalytics[i].questionId == k;
  }

  // ---------------------------------------------------------------- user analytics

  /** `acc[templateTitle]`: a missing title is `null`, which becomes the key "null". */
  function TitleKey(title: Option<string>): string {
    if title.None? then "null" else title.value
  }

  datatype Activity = Activity(date: int, template: Option<string>)

  datatype UserReport = UserReport(totalForms: nat, formsByTemplate: seq<Entry>, activityTimeline: seq<Activity>)

  /** `form.findMany({ where: { authorId } })`, in id order. */
  function UserForms(db: Tables, n: int): (r: seq<int>)
    ensures forall i | 0 <= i < |r| :: r[i] in db.forms && db.forms[r[i]].authorId == n
    ensures forall k | k in db.forms && db.forms[k].authorId == n :: k in r
  {
    var r := FindMany(db.forms, (f: Form) => f.authorId == n);
    assert forall i | 0 <= i < |r| :: r[i] in r;
    r
  }

  /** Every listed form's template row exists, so `form.template.title` can be read. */
  predicate TemplatesPresent(db: Tables, ids: seq<int>)
    requires forall i | 0 <= i < |ids| :: ids[i] in db.forms
  {
    forall i | 0 <= i < |ids| :: db.forms[ids[i]].templateId in db.templates
  }

  /** The activity timeline: each form's date and template title. */
  function Timeline(db: Tables, ids: seq<int>): (r: seq<Activity>)
    requires forall i | 0 <= i < |ids| :: ids[i] in db.forms
    requires TemplatesPresent(db, ids)
    ensures |r| == |ids|
  {
    seq(|ids|, i requires 0 <= i < |ids| => Activity(db.forms[ids[i]].createdAt, db.templates[db.forms[ids[i]].templateId].title))
  }

  /**
   * GET /user/:userId: a NaN id fails the query (500), as does a form whose
   * template row is missing; else the user's forms counted in total and per
   * template title, and listed with their dates, in form id order.
   */
  function UserAnalytics(db: Tables, userId: IdParam): (r: (int, Option<UserReport>))
    ensures r.0 == Ok || r.0 == ServerError
    ensures r.0 == Ok <==> r.1.Some?
    ensures userId.NotANumber? ==> r.0 == ServerError
    ensures r.0 == Ok <==> userId.Id? && TemplatesPresent(db, UserForms(db, userId.n))
    ensures r.0 == Ok ==>
      && r.1.value.totalForms == |r.1.value.activityTimeline|
      && r.1.value.totalForms == |UserForms(db, userId.n)|
      && r.1.value.formsByTemplate == ObjectEntries(Tally(UserTitles(db, UserForms(db, userId.n))))
  {
    match userId
    case NotANumber => (ServerError, None)
    case Id(n) =>
      var ids := UserForms(db, n);
      if !TemplatesPresent(db, ids) then (ServerError, None)
      else (Ok, Some(UserReport(|ids|, ObjectEntries(Tally(UserTitles(db, ids))), Timeline(db, ids))))
  }

  /** The title keys of the given forms' templates. */
  function UserTitles(db: Tables, ids: seq<int>): (r: seq<string>)
    requires forall i | 0 <= i < |ids| :: ids[i] in db.forms
    ensures |r| == |ids|
  {
    seq(|ids|, i requires 0 <= i < |ids| =>
      var t := db.forms[ids[i]].templateId;
      if t in db.templates then TitleKey(db.templates[t].title) else "undefined")
  }

  /** The per-template counts add up to the total number of forms. */
  lemma FormsByTemplateSum(db: Tables, userId: IdParam)
    requires UserAnalytics(db, userId).0 == Ok
    ensures var report := UserAnalytics(db, userId).1.value;
      Sum(Counts(report.formsByTemplate)) == report.totalForms
      && forall i | 0 <= i < |report.formsByTemplate| :: report.formsByTemplate[i].count >= 1
  {
    EntriesTotal(UserTitles(db, UserForms(db, userId.n)));
    EntriesCount(UserTitles(db, UserForms(db, userId.n)));
  }
}
