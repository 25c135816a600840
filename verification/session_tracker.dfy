/** The daily record of completed work sessions kept in `sessions.json`.
    The file is an abstract value and the current day a parameter. */
module SessionTracker {

  /** A calendar day as the tracker writes it (`DD/MM/YYYY`); days are only
      compared for equality. */
  type Date = string

  /** The record's `created` day and `sessions_count`. */
  datatype SessionRecord = SessionRecord(created: Date, sessionsCount: int)

  /** What the sessions file holds: nothing, text `json.load` rejects, or a record. */
  datatype StoreFile = Missing | Corrupt | Stored(record: SessionRecord)

  /** A record handed back to the caller, with the file as the call leaves it. */
  datatype Loaded = Loaded(record: SessionRecord, file: StoreFile)

  /** `_init_new_day`: an empty record for today. */
  function InitNewDay(today: Date): (r: SessionRecord)
    ensures r.created == today && r.sessionsCount == 0
  {
    SessionRecord(today, 0)
  }

  /** `load_sessions`: a missing file, a corrupt file and a record of another
      day all give a fresh record for today; a record of today is returned as
      stored. A corrupt file is not rewritten, because the fresh record
      already carries today's date and so the date check does not save it. */
  function LoadSessions(file: StoreFile, today: Date): (r: Loaded)
    ensures r.record.created == today
    ensures file.Stored? && file.record.created == today ==> r == Loaded(file.record, file)
    ensures !(file.Stored? && file.record.created == today) ==> r.record == InitNewDay(today)
    ensures file.Corrupt? ==> r.file == Corrupt
    ensures !file.Corrupt? ==> r.file == Stored(r.record)
  {
    if file.Missing? then
      var data := InitNewDay(today);
      Loaded(data, Stored(data))
    else
      var data := if file.Corrupt? then InitNewDay(today) else file.record;
      if data.created != today then
        var newDay := InitNewDay(today);
        Loaded(newDay, Stored(newDay))
      else Loaded(data, file)
  }

  /** `increment_session`: load, add one to the count, save, return. */
  function IncrementSession(file: StoreFile, today: Date): (r: Loaded)
    ensures r.record.created == today
    ensures r.record.sessionsCount == LoadSessions(file, today).record.sessionsCount + 1
    ensures r.file == Stored(r.record)
  {
    var data := LoadSessions(file, today).record;
    var bumped := data.(sessionsCount := data.sessionsCount + 1);
    Loaded(bumped, Stored(bumped))
  }

  /** Loading twice on the same day is the same as loading once. */
  lemma {:induction false} LoadIdempotent(file: StoreFile, today: Date)
    ensures var once := LoadSessions(file, today);
      LoadSessions(once.file, today) == once
  {
  }

  /** A new day's record, once saved, is what loading on that day returns,
      and loading leaves the file alone. */
  lemma {:induction false} NewDayIsKept(today: Date)
    ensures var d := InitNewDay(today); LoadSessions(Stored(d), today) == Loaded(d, Stored(d))
  {
  }

  /** What an increment saves is what the next load on that day returns. */
  lemma {:induction false} IncrementThenLoad(file: StoreFile, today: Date)
    ensures LoadSessions(IncrementSession(file, today).file, today).record
         == IncrementSession(file, today).record
  {
  }

  /** The first session of a day counts 1, whatever the file held before. */
  lemma {:induction false} FirstSessionOfDay(file: StoreFile, today: Date)
    requires !(file.Stored? && file.record.created == today)
    ensures IncrementSession(file, today).record == SessionRecord(today, 1)
  {
  }

  /** `n` increments on one day, starting from whatever the file holds. */
  function IncrementTimes(file: StoreFile, today: Date, n: nat): StoreFile
    decreases n
  {
    if n == 0 then file else IncrementTimes(IncrementSession(file, today).file, today, n - 1)
  }

  /** Over one day the count grows by exactly the number of increments. */
  lemma {:induction false} IncrementsAccumulate(file: StoreFile, today: Date, n: nat)
    ensures LoadSessions(IncrementTimes(file, today, n), today).record.sessionsCount
         == LoadSessions(file, today).record.sessionsCount + n
    decreases n
  {
    if n > 0 {
      IncrementThenLoad(file, today);
      IncrementsAccumulate(IncrementSession(file, today).file, today, n - 1);
    }
  }
}
