/** `handleRepeatedTask`: when a note's front-matter changes and it describes
    a finished repeating task, reset the task to not done and move its
    scheduled date one interval on. The handler is modelled as a pure
    function of the front-matter and today's date; the notice it shows and
    the front-matter patch it writes are returned as an `Outcome`. */
module RepeatedTask {
  import opened Wrappers
  import opened Calendar
  import opened DateFormat
  import opened Frontmatter

  const KindKey := "kind"
  const DoneKey := "task.done"
  const RepeatKey := "task.repeat"
  const ScheduledKey := "task.scheduled"

  const TaskKind := "task"
  const EveryDay := "every day"
  const EveryWeek := "every week"
  const NoticePrefix := "Unsupported repeat value: "

  /** The four front-matter keys the handler touches are distinct. */
  lemma KeysDistinct()
    ensures KindKey != DoneKey && KindKey != RepeatKey && KindKey != ScheduledKey
    ensures DoneKey != RepeatKey && DoneKey != ScheduledKey && RepeatKey != ScheduledKey
  {
  }

  /** The two supported repeat intervals. */
  datatype Interval = Day | Week

  function IntervalDays(i: Interval): nat {
    match i
    case Day => 1
    case Week => 7
  }

  /** The interval a `task.repeat` value names. Values are compared with
      `!==`, so only the two exact strings are recognised. */
  function RepeatInterval(v: Value): (r: Option<Interval>)
    ensures r == Some(Day) <==> v == Str(EveryDay)
    ensures r == Some(Week) <==> v == Str(EveryWeek)
  {
    if v == Str(EveryDay) then Some(Day)
    else if v == Str(EveryWeek) then Some(Week)
    else None
  }

  /** The record is present, is a task, is done and repeats. */
  predicate Eligible(fm: Option<Fields>) {
    && fm.Some?
    && Field(fm.value, KindKey) == Some(Str(TaskKind))
    && Truthy(Field(fm.value, DoneKey))
    && Truthy(Field(fm.value, RepeatKey))
  }

  /** The date the next occurrence is counted from: `task.scheduled` when it
      is neither `undefined` nor `null`, otherwise today formatted as
      `YYYY-MM-DD`; the chosen text is then parsed. `None` stands for every
      anchor the strict parse does not accept. */
  function Anchor(fm: Fields, today: Date): (r: Option<Date>)
    requires Valid(today)
    ensures r.Some? ==> Valid(r.value)
    ensures (Field(fm, ScheduledKey).None? || Field(fm, ScheduledKey) == Some(Null)) && today.year <= 9999 ==>
              r == Some(today)
    ensures Field(fm, ScheduledKey).Some? && Field(fm, ScheduledKey).value.Str? && r.Some? ==>
              Format(r.value) == Field(fm, ScheduledKey).value.s
    ensures Field(fm, ScheduledKey).Some? && !Field(fm, ScheduledKey).value.Str? && Field(fm, ScheduledKey) != Some(Null) ==>
              r.None?
  {
    match Field(fm, ScheduledKey)
    case None => AnchorToday(today)
    case Some(Null) => AnchorToday(today)
    case Some(Str(s)) =>
      if Parse(s).Some? then FormatParse(s); Parse(s) else None
    case Some(_) => None
  }

  /** Today's date written as `YYYY-MM-DD` and read back. */
  function AnchorToday(today: Date): (r: Option<Date>)
    requires Valid(today)
    ensures today.year <= 9999 ==> r == Some(today)
  {
    var t := Parse(Format(today));
    if today.year <= 9999 then ParseFormat(today); t else t
  }

  /** What one run of the handler does.
      - `NoOp`: returns without a notice or a write.
      - `Unsupported`: shows the notice `message` and writes nothing.
      - `BadAnchor`: the anchor text is not a `YYYY-MM-DD` date (see the
        README for what the source does then).
      - `Mutate`: writes `task.done` and `task.scheduled`, nothing else. */
  datatype Outcome =
    | NoOp
    | Unsupported(message: string)
    | BadAnchor
    | Mutate(done: bool, scheduled: string)

  function HandleRepeatedTask(fm: Option<Fields>, today: Date): (r: Outcome)
    requires Valid(today)
    ensures r.NoOp? <==> !Eligible(fm)
    ensures r.Unsupported? <==> Eligible(fm) && RepeatInterval(fm.value[RepeatKey]).None?
    ensures r.Unsupported? && fm.Some? ==>
              r.message == NoticePrefix + JsString(fm.value[RepeatKey])
    ensures r.Unsupported? && fm.Some? && fm.value[RepeatKey].Str? ==>
              r.message == NoticePrefix + fm.value[RepeatKey].s
    ensures r.BadAnchor? <==>
              Eligible(fm) && RepeatInterval(fm.value[RepeatKey]).Some? && Anchor(fm.value, today).None?
    ensures r.Mutate? ==> !r.done
    ensures r.Mutate? && fm.Some? ==> !Eligible(Some(Apply(fm.value, r)))
  {
    if !Eligible(fm) then NoOp
    else
      var repeat := fm.value[RepeatKey];
      match RepeatInterval(repeat)
      case None => Unsupported(NoticePrefix + JsString(repeat))
      case Some(i) =>
        match Anchor(fm.value, today)
        case None => BadAnchor
        case Some(a) => Mutate(false, Format(AddDays(a, IntervalDays(i))))
  }

  /** The front-matter after `processFrontMatter` has applied the outcome's
      patch; outcomes other than `Mutate` write nothing. */
  function Apply(fm: Fields, r: Outcome): (fm': Fields)
    ensures r.Mutate? ==> Field(fm', DoneKey) == Some(Bool(r.done))
    ensures r.Mutate? ==> Field(fm', ScheduledKey) == Some(Str(r.scheduled))
    ensures forall k :: k != DoneKey && k != ScheduledKey ==> Field(fm', k) == Field(fm, k)
    ensures !r.Mutate? ==> fm' == fm
  {
    match r
    case Mutate(done, scheduled) => fm[DoneKey := Bool(done)][ScheduledKey := Str(scheduled)]
    case _ => fm
  }

  /** A `task.scheduled` holding the `YYYY-MM-DD` text of a date anchors
      on that date, whatever today is. With the third `ensures` of `Anchor`
      this says that a string anchor is accepted exactly when it is the
      canonical text of a date. */
  lemma AnchorReadsScheduled(fm: Fields, today: Date, d: Date)
    requires Valid(today) && Valid(d) && d.year <= 9999
    requires Field(fm, ScheduledKey) == Some(Str(Format(d)))
    ensures Anchor(fm, today) == Some(d)
  {
    ParseFormat(d);
  }

  /** On the mutating path the new scheduled date is one interval after the
      anchor: a valid date strictly later than it, written as a `YYYY-MM-DD`
      text that parses back to it while the year has four digits. */
  lemma NextIsOneIntervalLater(fm: Fields, today: Date)
    requires Valid(today)
    requires Eligible(Some(fm))
    requires RepeatInterval(fm[RepeatKey]).Some?
    requires Anchor(fm, today).Some?
    ensures var a := Anchor(fm, today).value;
            var n := IntervalDays(RepeatInterval(fm[RepeatKey]).value);
            var next := AddDays(a, n);
            && HandleRepeatedTask(Some(fm), today) == Mutate(false, Format(next))
            && Valid(next) && Before(a, next)
            && DayNumber(next) == DayNumber(a) + n
            && (next.year <= 9999 ==> Parse(Format(next)) == Some(next))
  {
    var a := Anchor(fm, today).value;
    var n := IntervalDays(RepeatInterval(fm[RepeatKey]).value);
    AddDaysLater(a, n);
    if AddDays(a, n).year <= 9999 {
      ParseFormat(AddDays(a, n));
    }
  }

  /** The number of days in `k` consecutive intervals. */
  function SpanDays(i: Interval, k: nat): (n: nat)
    ensures 0 < k ==> n == IntervalDays(i) + SpanDays(i, k - 1)
  {
    match i
    case Day => k
    case Week => 7 * k
  }

  /** The user ticks the task done again, the change notifier runs the
      handler, and its patch is written. */
  function CompleteAgain(fm: Fields, today: Date): Fields
    requires Valid(today)
  {
    var marked := fm[DoneKey := Bool(true)];
    Apply(marked, HandleRepeatedTask(Some(marked), today))
  }

  /** `k` rounds of `CompleteAgain`. */
  function Cycles(fm: Fields, today: Date, k: nat): Fields
    requires Valid(today)
    decreases k
  {
    if k == 0 then fm else Cycles(CompleteAgain(fm, today), today, k - 1)
  }

  /** `fm` describes a task repeating every `i` and scheduled for `a`. */
  predicate ScheduledTask(fm: Fields, i: Interval, a: Date) {
    && Valid(a)
    && Field(fm, KindKey) == Some(Str(TaskKind))
    && RepeatKey in fm && RepeatInterval(fm[RepeatKey]) == Some(i)
    && Field(fm, ScheduledKey) == Some(Str(Format(a)))
  }

  /** One round of `CompleteAgain` on a task scheduled for `a` schedules it
      one interval after `a` and keeps its kind and repeat value. */
  lemma CompleteAgainAdvances(fm: Fields, today: Date, i: Interval, a: Date)
    requires Valid(today) && ScheduledTask(fm, i, a) && a.year <= 9999
    ensures ScheduledTask(CompleteAgain(fm, today), i, AddDays(a, IntervalDays(i)))
  {
    KeysDistinct();
    var marked := fm[DoneKey := Bool(true)];
    var r := Mutate(false, Format(AddDays(a, IntervalDays(i))));
    HandlerOnMarked(fm, today, i, a);
    assert CompleteAgain(fm, today) == Apply(marked, r);
    assert Field(marked, RepeatKey) == Field(fm, RepeatKey);
    assert Field(marked, KindKey) == Field(fm, KindKey);
  }

  /** Ticking such a task done makes the handler schedule it one interval
      after `a`. */
  lemma HandlerOnMarked(fm: Fields, today: Date, i: Interval, a: Date)
    requires Valid(today) && ScheduledTask(fm, i, a) && a.year <= 9999
    ensures HandleRepeatedTask(Some(fm[DoneKey := Bool(true)]), today)
            == Mutate(false, Format(AddDays(a, IntervalDays(i))))
  {
    KeysDistinct();
    ParseFormat(a);
    var marked := fm[DoneKey := Bool(true)];
    assert Field(marked, ScheduledKey) == Field(fm, ScheduledKey);
    assert Anchor(marked, today) == Some(a);
    assert marked[RepeatKey] == fm[RepeatKey];
    assert Eligible(Some(marked));
  }

  /** The first of `k` intervals followed by the remaining `k - 1` reach
      the same date as all `k` at once, and the start lies no later. */
  lemma StepsCompose(a: Date, i: Interval, k: nat)
    requires Valid(a) && 0 < k
    ensures AddDays(AddDays(a, IntervalDays(i)), SpanDays(i, k - 1)) == AddDays(a, SpanDays(i, k))
    ensures a.year <= AddDays(a, SpanDays(i, k)).year
  {
    AddDaysAdd(a, IntervalDays(i), SpanDays(i, k - 1));
    AddDaysNotEarlier(a, SpanDays(i, k));
  }

  /** No drift: completing a task whose scheduled date is `a` again and
      again moves it by exactly one interval each time, so after `k` rounds
      it is `k` intervals after `a`, whatever today is. */
  lemma {:induction false} NoDrift(fm: Fields, today: Date, i: Interval, a: Date, k: nat)
    requires Valid(today) && ScheduledTask(fm, i, a)
    requires AddDays(a, SpanDays(i, k)).year <= 9999
    ensures ScheduledTask(Cycles(fm, today, k), i, AddDays(a, SpanDays(i, k)))
    decreases k
  {
    if k > 0 {
      StepsCompose(a, i, k);
      CompleteAgainAdvances(fm, today, i, a);
      NoDrift(CompleteAgain(fm, today), today, i, AddDays(a, IntervalDays(i)), k - 1);
    }
  }
}
