// The release-smoke scheduler (core/cron_thinker.py).
//
// An announcement for a maintenance day registers one job for that day, in the in-memory scheduler
// and in a persisted list; firing removes it from both; after a restart the list is read back.
// Times are seconds on the Beijing clock.  A run is any sequence of the steps below, so
// announcements, settings changes, firings, crashes and restores interleave freely.
module SmokeScheduler {
  import opened Wrappers
  import opened Arithmetic

  const DAY := 86400
  const GRACE := 3600  // misfire_grace_time

  datatype Settings = Settings(enabled: bool, dayOffset: int, hour: int, minute: int)

  // The fields present in an update.
  datatype Update = Update(enabled: Option<bool>, dayOffset: Option<int>, hour: Option<int>, minute: Option<int>)

  function Clamp(lo: int, hi: int, x: int): int { if x < lo then lo else if x > hi then hi else x }

  function Saved(s: Settings, u: Update): Settings {
    Settings(if u.enabled.Some? then u.enabled.value else s.enabled,
             if u.dayOffset.Some? then Clamp(0, 14, u.dayOffset.value) else s.dayOffset,
             if u.hour.Some? then Clamp(0, 23, u.hour.value) else s.hour,
             if u.minute.Some? then Clamp(0, 59, u.minute.value) else s.minute)
  }

  // compute_smoke_run_at_beijing
  function RunAt(s: Settings, day: int): int {
    (day + s.dayOffset) * DAY + s.hour * 3600 + s.minute * 60
  }

  // A persisted job; `Junk` is a row whose id or run time cannot be read.
  datatype Row = Row(day: int, runAt: int) | Junk

  datatype Firing = Firing(day: int, runAt: int, at: int)

  // `jobs` is the scheduler's memory, `file` the persisted list, `callbacks` the firings whose
  // callback has started and not yet removed its job, `fired` the history.
  datatype State = State(now: int, settings: Settings, jobs: map<int, int>, file: seq<Row>,
                         callbacks: multiset<int>, fired: seq<Firing>)

  datatype Event =
    | Advance(seconds: nat)
    | Save(update: Update)
    | Announce(day: int, accepted: bool)
    | FireStart(day: int)
    | FireEnd(day: int)
    | Crash
    | Restore

  predicate HasRow(file: seq<Row>, day: int) {
    exists k :: 0 <= k < |file| && file[k].Row? && file[k].day == day
  }

  function PersistAdd(file: seq<Row>, day: int, runAt: int): seq<Row> {
    if HasRow(file, day) then file else file + [Row(day, runAt)]
  }

  function PersistRemove(file: seq<Row>, day: int): seq<Row> {
    if file == [] then []
    else if file[0].Row? && file[0].day == day then PersistRemove(file[1..], day)
    else [file[0]] + PersistRemove(file[1..], day)
  }

  predicate Future(r: Row, now: int) { r.Row? && r.runAt > now }

  function Keep(file: seq<Row>, now: int): seq<Row> {
    if file == [] then [] else (if Future(file[0], now) then [file[0]] else []) + Keep(file[1..], now)
  }

  // Rows are read in order; a job already in the scheduler is left alone.
  function Restored(file: seq<Row>, now: int, jobs: map<int, int>): map<int, int>
    decreases |file|
  {
    if file == [] then jobs
    else if Future(file[0], now) && file[0].day !in jobs then Restored(file[1..], now, jobs[file[0].day := file[0].runAt])
    else Restored(file[1..], now, jobs)
  }

  function Apply(st: State, e: Event): State {
    match e
    case Advance(dt) => st.(now := st.now + dt)
    case Save(u) => st.(settings := Saved(st.settings, u))
    case Announce(day, accepted) =>
      var at := RunAt(st.settings, day);
      if !accepted || !st.settings.enabled || at <= st.now || day in st.jobs then st
      else st.(jobs := st.jobs[day := at], file := PersistAdd(st.file, day, at))
    case FireStart(day) =>
      if day !in st.jobs || st.jobs[day] > st.now then st
      else if st.now - st.jobs[day] > GRACE then st.(jobs := st.jobs - {day})
      else st.(jobs := st.jobs - {day}, callbacks := st.callbacks + multiset{day},
               fired := st.fired + [Firing(day, st.jobs[day], st.now)])
    case FireEnd(day) =>
      if day !in st.callbacks then st
      else st.(callbacks := st.callbacks - multiset{day}, jobs := st.jobs - {day}, file := PersistRemove(st.file, day))
    case Crash => st.(jobs := map[], callbacks := multiset{})
    case Restore => st.(jobs := Restored(st.file, st.now, st.jobs), file := Keep(st.file, st.now))
  }

  function Run(st: State, es: seq<Event>): State
    decreases |es|
  {
    if es == [] then st else Run(Apply(st, es[0]), es[1..])
  }

  // ---------------------------------------------------------------------------------------------
  // The program's own form
  // ---------------------------------------------------------------------------------------------

  datatype FeedOutcome = Ignored | InPast | Duplicate | Registered(runAt: int)

  class CronThinker {
    var now: int
    var settings: Settings
    var jobs: map<int, int>
    var file: seq<Row>
    var callbacks: multiset<int>
    ghost var fired: seq<Firing>

    constructor (now: int, settings: Settings, file: seq<Row>)
      ensures Value() == State(now, settings, map[], file, multiset{}, [])
    {
      this.now, this.settings, this.file := now, settings, file;
      jobs, callbacks, fired := map[], multiset{}, [];
    }

    ghost function Value(): State
      reads this
    {
      State(now, settings, jobs, file, callbacks, fired)
    }

    method SaveBiosSettings(u: Update)
      modifies this
      ensures Value() == Apply(old(Value()), Save(u))
    {
      var cur := settings;
      if u.enabled.Some? { cur := cur.(enabled := u.enabled.value); }
      if u.dayOffset.Some? { cur := cur.(dayOffset := Clamp(0, 14, u.dayOffset.value)); }
      if u.hour.Some? { cur := cur.(hour := Clamp(0, 23, u.hour.value)); }
      if u.minute.Some? { cur := cur.(minute := Clamp(0, 59, u.minute.value)); }
      settings := cur;
    }

    // `accepted`: the release switch is on, the chat is allowed and the text names a maintenance day.
    method FeedAnnouncement(day: int, accepted: bool) returns (out: FeedOutcome)
      modifies this
      ensures Value() == Apply(old(Value()), Announce(day, accepted))
      ensures out.Registered? <==> Value() != old(Value())
      ensures out.Ignored? <==> !accepted || !settings.enabled
      ensures out.InPast? <==> accepted && settings.enabled && RunAt(settings, day) <= now
      ensures out.Duplicate? ==> day in jobs && RunAt(settings, day) > now
      ensures out.Registered? ==> out.runAt > now && day !in old(jobs) && jobs == old(jobs)[day := out.runAt]
    {
      if !accepted || !settings.enabled { return Ignored; }
      var at := RunAt(settings, day);
      if at <= now { return InPast; }
      if day in jobs { return Duplicate; }
      jobs := jobs[day := at];
      AddRow(day, at);
      assert day in Value().jobs && day !in old(Value()).jobs;
      out := Registered(at);
    }

    method AddRow(day: int, at: int)
      modifies this`file
      ensures file == PersistAdd(old(file), day, at)
    {
      for k := 0 to |file|
        invariant file == old(file)
        invariant forall j :: 0 <= j < k ==> !(file[j].Row? && file[j].day == day)
      {
        if file[k].Row? && file[k].day == day { return; }
      }
      file := file + [Row(day, at)];
    }

    method RemoveRow(day: int)
      modifies this`file
      ensures file == PersistRemove(old(file), day)
    {
      var kept: seq<Row> := [];
      for k := 0 to |file|
        invariant file == old(file)
        invariant kept + PersistRemove(file[k..], day) == PersistRemove(file, day)
      {
        assert file[k..][0] == file[k] && file[k..][1..] == file[k + 1..];
        if !(file[k].Row? && file[k].day == day) { kept := kept + [file[k]]; }
      }
      file := kept;
    }

    // The scheduler runs a due job's callback, unless it comes more than the grace time late.
    method RunDueJob(day: int) returns (started: bool)
      modifies this
      ensures Value() == Apply(old(Value()), FireStart(day))
      ensures started <==> |fired| == |old(fired)| + 1
    {
      if day !in jobs || jobs[day] > now { return false; }
      var at := jobs[day];
      jobs := jobs - {day};
      if now - at > GRACE { return false; }
      callbacks := callbacks + multiset{day};
      fired := fired + [Firing(day, at, now)];
      started := true;
    }

    method EndCallback(day: int)
      modifies this
      ensures Value() == Apply(old(Value()), FireEnd(day))
    {
      if day !in callbacks { return; }
      callbacks := callbacks - multiset{day};
      jobs := jobs - {day};
      RemoveRow(day);
    }

    method RestorePersistedJobs()
      modifies this
      ensures Value() == Apply(old(Value()), Restore)
    {
      var rows, keep := file, [];
      for k := 0 to |rows|
        invariant file == rows == old(file) && now == old(now)
        invariant unchanged(`settings) && unchanged(`callbacks) && unchanged(`fired)
        invariant keep + Keep(rows[k..], now) == Keep(rows, now)
        invariant Restored(rows[k..], now, jobs) == Restored(rows, now, old(jobs))
      {
        var row := rows[k];
        assert rows[k..][0] == row && rows[k..][1..] == rows[k + 1..];
        if row.Row? && row.runAt > now {
          keep := keep + [row];
          if row.day !in jobs { jobs := jobs[row.day := row.runAt]; }
        }
      }
      file := keep;
    }
  }

  // ---------------------------------------------------------------------------------------------
  // Settings and run times
  // ---------------------------------------------------------------------------------------------

  predicate InRange(s: Settings) {
    0 <= s.dayOffset <= 14 && 0 <= s.hour <= 23 && 0 <= s.minute <= 59
  }

  // Whatever is saved, settings stay in range, so a job runs on the chosen day, at the chosen
  // minute, and different maintenance days run at least a day apart.
  lemma {:induction false} SettingsStayInRange(st: State, es: seq<Event>)
    requires InRange(st.settings)
    ensures InRange(Run(st, es).settings)
    decreases |es|
  {
    if es != [] { SettingsStayInRange(Apply(st, es[0]), es[1..]); }
  }

  // t is the number in the range nearest to x: x itself, if it lies in the range.
  predicate NearestTo(lo: int, hi: int, x: int, t: int) {
    lo <= t <= hi && (lo <= x <= hi ==> t == x) && (x < lo ==> t == lo) && (x > hi ==> t == hi)
  }

  // What is saved is used from then on, each number in its range; what is not given stays.
  lemma SavedExactly(st: State, u: Update)
    ensures var s, t := st.settings, Apply(st, Save(u)).settings;
            && t.enabled == (if u.enabled.Some? then u.enabled.value else s.enabled)
            && (if u.dayOffset.Some? then NearestTo(0, 14, u.dayOffset.value, t.dayOffset) else t.dayOffset == s.dayOffset)
            && (if u.hour.Some? then NearestTo(0, 23, u.hour.value, t.hour) else t.hour == s.hour)
            && (if u.minute.Some? then NearestTo(0, 59, u.minute.value, t.minute) else t.minute == s.minute)
  {
  }

  lemma RunTimeOnItsDay(s: Settings, day: int, other: int)
    requires InRange(s)
    ensures RunAt(s, day) / 86400 == day + s.dayOffset
    ensures RunAt(s, day) % 86400 / 3600 == s.hour && RunAt(s, day) % 3600 / 60 == s.minute && RunAt(s, day) % 60 == 0
    ensures day < other ==> RunAt(s, day) + 86400 <= RunAt(s, other)
  {
    var t, d := s.hour * 3600 + s.minute * 60, day + s.dayOffset;
    RunTimeOfDay(d, s.hour, s.minute);
    assert RunAt(s, day) == d * DAY + t;
  }

  lemma RunTimeOfDay(d: int, hour: nat, minute: nat)
    requires hour <= 23 && minute <= 59
    ensures var at := d * DAY + (hour * 3600 + minute * 60);
            at / DAY == d && at % DAY / 3600 == hour && at % 3600 / 60 == minute && at % 60 == 0
  {
    var t := hour * 3600 + minute * 60;
    ModUnique(d * DAY + t, DAY, d, t);
    ModUnique(t, 3600, hour, minute * 60);
    ModUnique(d * DAY + t, 3600, d * 24 + hour, minute * 60);
    ModUnique(d * DAY + t, 60, d * 1440 + hour * 60 + minute, 0);
  }

  // ---------------------------------------------------------------------------------------------
  // At most once per maintenance day
  // ---------------------------------------------------------------------------------------------

  // A job still to come is later than every past firing of its day, and past firings of one day are
  // strictly ordered by run time.
  ghost predicate Fresh(st: State) {
    && (forall i :: 0 <= i < |st.fired| ==> st.fired[i].runAt <= st.fired[i].at <= st.now
                                            && st.fired[i].at - st.fired[i].runAt <= GRACE)
    && (forall i :: 0 <= i < |st.fired| && st.fired[i].day in st.jobs ==> st.fired[i].runAt < st.jobs[st.fired[i].day])
    && (forall i, j :: 0 <= i < j < |st.fired| && st.fired[i].day == st.fired[j].day ==>
          st.fired[i].runAt < st.fired[j].runAt)
  }

  lemma {:induction false} RestoredJobs(file: seq<Row>, now: int, jobs: map<int, int>, day: int)
    ensures var r := Restored(file, now, jobs);
            && (day in jobs ==> day in r && r[day] == jobs[day])
            && (day !in jobs && day in r ==> r[day] > now && Row(day, r[day]) in file)
    decreases |file|
  {
    if file != [] {
      var jobs' := if Future(file[0], now) && file[0].day !in jobs then jobs[file[0].day := file[0].runAt] else jobs;
      RestoredJobs(file[1..], now, jobs', day);
    }
  }

  lemma StepKeepsFresh(st: State, e: Event)
    requires Fresh(st)
    ensures Fresh(Apply(st, e))
  {
    if e.Restore? {
      forall i | 0 <= i < |st.fired| {
        RestoredJobs(st.file, st.now, st.jobs, st.fired[i].day);
      }
    }
  }

  lemma {:induction false} RunKeepsFresh(st: State, es: seq<Event>)
    requires Fresh(st)
    ensures Fresh(Run(st, es))
    decreases |es|
  {
    if es != [] {
      StepKeepsFresh(st, es[0]);
      RunKeepsFresh(Apply(st, es[0]), es[1..]);
    }
  }

  // A process start: nothing in memory, any persisted rows, any settings.
  ghost predicate Boot(st: State) {
    st.jobs == map[] && st.callbacks == multiset{} && st.fired == []
  }

  // Main result: whatever announcements, settings changes, misfires, crashes and restores come in
  // between, a day fires again only for a strictly later run time, ...
  lemma FiringsStrictlyLater(st: State, es: seq<Event>, i: nat, j: nat)
    requires Boot(st)
    requires i < j < |Run(st, es).fired| && Run(st, es).fired[i].day == Run(st, es).fired[j].day
    ensures Run(st, es).fired[i].runAt < Run(st, es).fired[j].runAt
  {
    RunKeepsFresh(st, es);
  }

  // ... and no firing at all is early, or later than the grace time.
  lemma FiringsPunctual(st: State, es: seq<Event>, i: nat)
    requires Boot(st) && i < |Run(st, es).fired|
    ensures Run(st, es).fired[i].runAt <= Run(st, es).fired[i].at <= Run(st, es).fired[i].runAt + 3600
    ensures Run(st, es).fired[i].at <= Run(st, es).now
  {
    RunKeepsFresh(st, es);
  }

  // A job is not started before its run time; taken up to an hour after it, it fires with that run time,
  // and later it never does.  Once due it leaves the scheduler either way.
  lemma DueJobFires(st: State, day: int)
    requires day in st.jobs
    ensures var at, st' := st.jobs[day], Apply(st, FireStart(day));
            && (st.now < at ==> st' == st)
            && (at <= st.now <= at + 3600 ==>
                  && st'.fired == st.fired + [Firing(day, at, st.now)]
                  && st'.callbacks == st.callbacks + multiset{day})
            && (st.now > at + 3600 ==> st'.fired == st.fired)
            && (at <= st.now ==> st'.jobs == st.jobs - {day})
  {
  }

  // Main result on what is fired: an announcement accepted in time for a day without a job leads to a
  // firing at the announced run time if the scheduler gets to it within the hour, and to none if it comes
  // later.
  lemma AnnouncedJobFires(st: State, day: int, late: nat)
    requires st.settings.enabled && day !in st.jobs && RunAt(st.settings, day) > st.now
    ensures var at := RunAt(st.settings, day);
            Run(st, [Announce(day, true), Advance(at + late - st.now), FireStart(day)]).fired
            == st.fired + if late <= 3600 then [Firing(day, at, at + late)] else []
  {
    var at := RunAt(st.settings, day);
    var es := [Announce(day, true), Advance(at + late - st.now), FireStart(day)];
    var a := Apply(st, es[0]);
    assert day in a.jobs && a.jobs[day] == at && a.fired == st.fired;
    var b := Apply(a, es[1]);
    assert b == a.(now := at + late);
    DueJobFires(b, day);
    assert es[1..][1..][1..] == [];
    assert Run(st, es) == Run(a, es[1..]) == Run(b, es[1..][1..]) == Apply(b, FireStart(day));
    assert st.fired + [] == st.fired;
  }

  // Persisted rows carry the run times of the present settings; an empty list does.
  ghost predicate RowsTimed(st: State) {
    forall r :: r in st.file && r.Row? ==> r.runAt == RunAt(st.settings, r.day)
  }

  // The time of day and the offset stay as they are; `enabled` may be switched.
  predicate KeepsTiming(s: Settings, e: Event) {
    e.Save? ==> (var t := Saved(s, e.update); t.dayOffset == s.dayOffset && t.hour == s.hour && t.minute == s.minute)
  }

  ghost predicate TimingConstant(st: State, es: seq<Event>)
    decreases |es|
  {
    es == [] || (KeepsTiming(st.settings, es[0]) && TimingConstant(Apply(st, es[0]), es[1..]))
  }

  // All run times known anywhere are those of the present settings.
  ghost predicate Timed(st: State) {
    && (forall d :: d in st.jobs ==> st.jobs[d] == RunAt(st.settings, d))
    && (forall r :: r in st.file && r.Row? ==> r.runAt == RunAt(st.settings, r.day))
    && (forall k :: 0 <= k < |st.fired| ==> st.fired[k].runAt == RunAt(st.settings, st.fired[k].day))
  }

  // Every job still to come is persisted.
  ghost predicate FuturePersisted(st: State) {
    forall d :: d in st.jobs && st.jobs[d] > st.now ==> Row(d, st.jobs[d]) in st.file
  }

  lemma {:induction false} RemoveKeepsOthers(file: seq<Row>, day: int, r: Row)
    ensures r in PersistRemove(file, day) <==> r in file && !(r.Row? && r.day == day)
  {
    if file != [] {
      assert file == [file[0]] + file[1..];
      RemoveKeepsOthers(file[1..], day, r);
    }
  }

  // The end of a callback leaves neither a job nor a row of its day, and all rows of other days.
  lemma CallbackClearsDay(st: State, day: int, r: Row)
    requires day in st.callbacks
    ensures var st' := Apply(st, FireEnd(day));
            && day !in st'.jobs && st'.callbacks == st.callbacks - multiset{day}
            && (r in st'.file <==> r in st.file && !(r.Row? && r.day == day))
            && (forall d :: d != day ==> (d in st'.jobs <==> d in st.jobs) && (d in st.jobs ==> st'.jobs[d] == st.jobs[d]))
  {
    RemoveKeepsOthers(st.file, day, r);
  }

  lemma {:induction false} KeepsFuture(file: seq<Row>, now: int, r: Row)
    ensures r in Keep(file, now) <==> r in file && Future(r, now)
  {
    if file != [] {
      assert file == [file[0]] + file[1..];
      KeepsFuture(file[1..], now, r);
    }
  }

  lemma AnnounceKeepsPersisted(st: State, day: int, accepted: bool)
    requires Timed(st) && FuturePersisted(st)
    ensures FuturePersisted(Apply(st, Announce(day, accepted)))
  {
    var st' := Apply(st, Announce(day, accepted));
    if HasRow(st.file, day) {
      var k :| 0 <= k < |st.file| && st.file[k].Row? && st.file[k].day == day;
      assert st.file[k] in st.file && st.file[k] == Row(day, RunAt(st.settings, day));
    }
  }

  // A restore drops the rows of due jobs, but keeps those of all jobs still to come.
  lemma RestoreKeepsPersisted(st: State)
    requires FuturePersisted(st)
    ensures FuturePersisted(Apply(st, Restore))
  {
    var st' := Apply(st, Restore);
    forall d | d in st'.jobs && st'.jobs[d] > st'.now
      ensures Row(d, st'.jobs[d]) in st'.file
    {
      RestoredJobs(st.file, st.now, st.jobs, d);
      KeepsFuture(st.file, st.now, Row(d, st'.jobs[d]));
    }
  }

  lemma StepKeepsPersisted(st: State, e: Event)
    requires Timed(st) && FuturePersisted(st)
    ensures FuturePersisted(Apply(st, e))
  {
    var st' := Apply(st, e);
    if e.Announce? {
      AnnounceKeepsPersisted(st, e.day, e.accepted);
    } else if e.Restore? {
      RestoreKeepsPersisted(st);
    } else if e.FireEnd? {
      forall d | d in st'.jobs && st'.jobs[d] > st'.now
        ensures Row(d, st'.jobs[d]) in st'.file
      {
        RemoveKeepsOthers(st.file, e.day, Row(d, st'.jobs[d]));
      }
    }
  }

  lemma StepKeepsTimed(st: State, e: Event)
    requires Timed(st) && KeepsTiming(st.settings, e)
    ensures Timed(Apply(st, e))
  {
    var st' := Apply(st, e);
    if e.Restore? {
      forall d | d in st'.jobs
        ensures st'.jobs[d] == RunAt(st.settings, d)
      {
        RestoredJobs(st.file, st.now, st.jobs, d);
      }
      forall r | r in st'.file
        ensures r in st.file
      {
        KeepsFuture(st.file, st.now, r);
      }
    } else if e.FireEnd? {
      forall r | r in st'.file
        ensures r in st.file
      {
        RemoveKeepsOthers(st.file, e.day, r);
      }
    }
  }

  lemma {:induction false} RunKeepsTimed(st: State, es: seq<Event>)
    requires Timed(st) && TimingConstant(st, es)
    ensures Timed(Run(st, es))
    decreases |es|
  {
    if es != [] {
      StepKeepsTimed(st, es[0]);
      RunKeepsTimed(Apply(st, es[0]), es[1..]);
    }
  }

  lemma {:induction false} RunKeepsPersisted(st: State, es: seq<Event>)
    requires Timed(st) && FuturePersisted(st) && TimingConstant(st, es)
    ensures FuturePersisted(Run(st, es))
    decreases |es|
  {
    if es != [] {
      StepKeepsTimed(st, es[0]);
      StepKeepsPersisted(st, es[0]);
      RunKeepsPersisted(Apply(st, es[0]), es[1..]);
    }
  }

  // With unchanged timing every maintenance day fires at most once, across all restarts.
  lemma EachDayFiresOnce(st: State, es: seq<Event>, i: nat, j: nat)
    requires Boot(st) && RowsTimed(st) && TimingConstant(st, es)
    requires i < |Run(st, es).fired| && j < |Run(st, es).fired| && Run(st, es).fired[i].day == Run(st, es).fired[j].day
    ensures i == j
  {
    RunKeepsTimed(st, es);
    RunKeepsFresh(st, es);
  }

  // ---------------------------------------------------------------------------------------------
  // Surviving a restart
  // ---------------------------------------------------------------------------------------------

  // The run time of the first future row of a day.
  function FirstFuture(file: seq<Row>, now: int, day: int): Option<int> {
    if file == [] then None
    else if Future(file[0], now) && file[0].day == day then Some(file[0].runAt)
    else FirstFuture(file[1..], now, day)
  }

  lemma {:induction false} RestoredIsFirstFuture(file: seq<Row>, now: int, jobs: map<int, int>, day: int)
    ensures var r := Restored(file, now, jobs);
            && (day in jobs ==> day in r && r[day] == jobs[day])
            && (day !in jobs ==> (day in r <==> FirstFuture(file, now, day).Some?))
            && (day !in jobs && day in r ==> Some(r[day]) == FirstFuture(file, now, day))
    decreases |file|
  {
    if file != [] {
      var jobs' := if Future(file[0], now) && file[0].day !in jobs then jobs[file[0].day := file[0].runAt] else jobs;
      RestoredIsFirstFuture(file[1..], now, jobs', day);
    }
  }

  function Restarted(st: State): State { Apply(Apply(st, Crash), Restore) }

  // A job survives a restart at its run time exactly when that is the first future run time the
  // persisted list has for its day.
  lemma JobSurvivesExactly(st: State, day: int)
    requires day in st.jobs
    ensures (day in Restarted(st).jobs && Restarted(st).jobs[day] == st.jobs[day])
            <==> FirstFuture(st.file, st.now, day) == Some(st.jobs[day])
  {
    RestoredIsFirstFuture(st.file, st.now, map[], day);
  }

  // The same across a restart: the job is read back from the list and fires as announced, unless an older
  // row for its day still lies in the future.
  lemma RestartedJobFires(st: State, day: int, late: nat)
    requires day in st.jobs && st.jobs[day] > st.now && FirstFuture(st.file, st.now, day) == Some(st.jobs[day])
    ensures var at := st.jobs[day];
            Run(st, [Crash, Restore, Advance(at + late - st.now), FireStart(day)]).fired
            == st.fired + if late <= 3600 then [Firing(day, at, at + late)] else []
  {
    var at := st.jobs[day];
    var es := [Crash, Restore, Advance(at + late - st.now), FireStart(day)];
    JobSurvivesExactly(st, day);
    var r := Restarted(st);
    assert day in r.jobs && r.jobs[day] == at && r.fired == st.fired && r.now == st.now;
    var b := Apply(r, es[2]);
    assert b == r.(now := at + late);
    DueJobFires(b, day);
    assert es[1..][1..][1..][1..] == [];
    assert Run(st, es) == Run(Apply(st, Crash), es[1..]) == Run(r, es[1..][1..]) == Run(b, es[1..][1..][1..]) == Apply(b, FireStart(day));
    assert st.fired + [] == st.fired;
  }

  lemma {:induction false} FirstFutureFound(file: seq<Row>, now: int, r: Row)
    requires r in file && Future(r, now) && forall x :: x in file && x.Row? && x.day == r.day ==> x == r
    ensures FirstFuture(file, now, r.day) == Some(r.runAt)
  {
    if !(Future(file[0], now) && file[0].day == r.day) {
      FirstFutureFound(file[1..], now, r);
    } else {
      assert file[0] in file;
    }
  }

  // With unchanged timing no job still to come is ever lost in a restart, wherever the restores fall.
  lemma FutureJobsSurvive(st: State, es: seq<Event>, day: int)
    requires Boot(st) && RowsTimed(st) && TimingConstant(st, es)
    requires day in Run(st, es).jobs && Run(st, es).jobs[day] > Run(st, es).now
    ensures day in Restarted(Run(st, es)).jobs
    ensures Restarted(Run(st, es)).jobs[day] == Run(st, es).jobs[day]
  {
    RunKeepsTimed(st, es);
    RunKeepsPersisted(st, es);
    var s := Run(st, es);
    FirstFutureFound(s.file, s.now, Row(day, s.jobs[day]));
    JobSurvivesExactly(s, day);
  }

  lemma RunCons(st: State, es: seq<Event>)
    requires es != []
    ensures Run(st, es) == Run(Apply(st, es[0]), es[1..])
    ensures |es| > 1 ==> es[1..][0] == es[1]
  {
  }

  // With a change of settings a job can be lost: its first run is missed, which leaves the old row
  // in the list; announced again for a later time, the job gets no row of its own.
  lemma MissedThenReannouncedIsLost(st: State, later: Update)
    requires Boot(st) && st.file == [] && st.now == 0 && st.settings == Settings(true, 1, 10, 0)
    requires later == Update(None, Some(2), None, None)
    ensures var es := [Announce(0, true), Advance(DAY + 12 * 3600), FireStart(0), Save(later), Announce(0, true)];
            var s := Run(st, es);
            && 0 in s.jobs && s.jobs[0] > s.now && 0 !in Restarted(s).jobs
  {
    var es := [Announce(0, true), Advance(DAY + 12 * 3600), FireStart(0), Save(later), Announce(0, true)];
    var a := Apply(st, es[0]);
    assert a.jobs == map[0 := DAY + 36000] && a.file == [Row(0, DAY + 36000)];
    var b := Apply(a, es[1]);
    var c := Apply(b, es[2]);
    assert c.jobs == map[] && c.now == DAY + 43200;
    var d := Apply(c, es[3]);
    assert d.settings == Settings(true, 2, 10, 0);
    var e := Apply(d, es[4]);
    assert d.file[0] == Row(0, DAY + 36000);
    assert HasRow(d.file, 0);
    assert e.jobs == map[0 := 2 * DAY + 36000] && e.file == [Row(0, DAY + 36000)];
    RunCons(st, es);
    RunCons(a, es[1..]);
    RunCons(b, es[2..]);
    RunCons(c, es[3..]);
    RunCons(d, es[4..]);
    assert Run(e, es[5..]) == e;
    assert e.file[1..] == [];
    assert FirstFuture(e.file, e.now, 0) == None;
    RestoredIsFirstFuture(e.file, e.now, map[], 0);
  }
}
