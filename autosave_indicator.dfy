/**
 * The auto-save indicator of the submission screen
 * (src/components/submissions/AutoSaveIndicator.tsx): what it shows for each save status,
 * and how it words the time since the last save. The clock reading Date.now() is the
 * parameter now.
 */
module AutoSaveIndicator {
  import opened Wrappers
  import opened Text

  datatype SaveStatus = Idle | Saving | Saved | Error | Offline

  datatype Icon = Spinner | Check | Cloud | CloudOff

  datatype Config = Config(icon: Icon, text: string, color: string, animate: bool)

  /** How long ago a save was, in the coarsest unit that applies. */
  datatype Ago = JustNow | SecondsAgo(n: int) | MinutesAgo(n: int) | HoursAgo(n: int)

  /**
   * The elapsed whole seconds (Math.floor of the milliseconds over 1000) read in the unit
   * formatTimeAgo uses: under 10 s is just now, then seconds, minutes below an hour, hours.
   */
  function TimeAgo(seconds: int): (a: Ago)
    ensures a == JustNow <==> seconds < 10
    ensures a.SecondsAgo? ==> a.n == seconds && 10 <= seconds < 60
    ensures a.MinutesAgo? ==> 1 <= a.n < 60 && a.n * 60 <= seconds < a.n * 60 + 60
    ensures a.HoursAgo? ==> a.n >= 1 && a.n * 3600 <= seconds < a.n * 3600 + 3600
  {
    if seconds < 10 then JustNow
    else if seconds < 60 then SecondsAgo(seconds)
    else if seconds < 3600 then MinutesAgo(seconds / 60)
    else HoursAgo(seconds / 3600)
  }

  /** The words of an Ago. */
  function AgoText(a: Ago): string
  {
    match a
    case JustNow => "just now"
    case SecondsAgo(n) => IntToString(n) + "s ago"
    case MinutesAgo(n) => IntToString(n) + "m ago"
    case HoursAgo(n) => IntToString(n) + "h ago"
  }

  /** formatTimeAgo(date): the time since savedAt in words. */
  function FormatTimeAgo(savedAt: int, now: int): string
  {
    AgoText(TimeAgo((now - savedAt) / 1000))
  }

  /** The further back a save lies, the coarser (or equal) the unit it is told in. */
  lemma {:induction false} TimeAgoCoarsens(s1: int, s2: int)
    requires s1 <= s2
    ensures Rank(TimeAgo(s1)) <= Rank(TimeAgo(s2))
  {
  }

  function Rank(a: Ago): int
  {
    match a
    case JustNow => 0
    case SecondsAgo(_) => 1
    case MinutesAgo(_) => 2
    case HoursAgo(_) => 3
  }

  /** getStatusConfig(): icon, text, colour and spin of each status; idle has none. */
  function StatusConfig(status: SaveStatus, lastSaved: Option<int>, now: int): (r: Option<Config>)
    ensures r.None? <==> status == Idle
    ensures r.Some? ==> (r.value.animate <==> status == Saving)
    ensures status == Saved && lastSaved.Some? ==>
              r.value.text == "Saved " + FormatTimeAgo(lastSaved.value, now)
    ensures status == Saved && lastSaved.None? ==> r.value.text == "Saved"
  {
    match status
    case Saving => Some(Config(Spinner, "Saving...", "text-muted-foreground", true))
    case Saved =>
      Some(Config(Check, if lastSaved.Some? then "Saved " + FormatTimeAgo(lastSaved.value, now) else "Saved",
                  "text-emerald-600 dark:text-emerald-500", false))
    case Error => Some(Config(Cloud, "Failed to save", "text-destructive", false))
    case Offline => Some(Config(CloudOff, "Offline", "text-amber-600 dark:text-amber-500", false))
    case Idle => None
  }

  /** What the indicator renders: nothing when idle, else the config of its status. */
  function Indicator(status: SaveStatus, lastSaved: Option<int>, now: int): (r: Option<Config>)
    ensures r.None? <==> status == Idle
    ensures r.Some? ==> (StartsWith(r.value.text, "Saved") <==> status == Saved)
  {
    assert !StartsWith("Saving...", "Saved") by { assert "Saving..."[4] != "Saved"[4]; }
    var config := StatusConfig(status, lastSaved, now);
    if config.None? || status == Idle then None else config
  }
}
