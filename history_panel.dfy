/** The display logic of the history panel: how old an entry is, in the
    coarsest unit that fits; the icon for its data type; and which list the
    open tab shows. Rendering is not modelled. */
module HistoryPanel {
  import opened DataTypeUtils
  import opened History
  import opened Seqs

  const MsPerMinute := 60000
  const MsPerHour := 3600000
  const MsPerDay := 86400000

  /** The label `formatDate` chooses. The locale-dependent absolute date is
      kept as the timestamp it would be printed from. */
  datatype Age = JustNow | MinutesAgo(minutes: nat) | HoursAgo(hours: nat) | DaysAgo(days: nat) | OnDate(timestamp: int)

  /** `formatDate(timestamp)` when the clock reads `now`, both in milliseconds.
      The three unit counts are floors of the difference (Dafny's `/` by a
      positive constant is the floor, as `Math.floor` of the quotient is), and
      the first unit whose count is small enough is used. */
  function FormatDate(now: int, timestamp: int): (r: Age)
    ensures now - timestamp < MsPerMinute ==> r == JustNow
    ensures MsPerMinute <= now - timestamp < MsPerHour ==>
      r.MinutesAgo? && 1 <= r.minutes < 60 &&
      r.minutes * MsPerMinute <= now - timestamp < (r.minutes + 1) * MsPerMinute
    ensures MsPerHour <= now - timestamp < MsPerDay ==>
      r.HoursAgo? && 1 <= r.hours < 24 &&
      r.hours * MsPerHour <= now - timestamp < (r.hours + 1) * MsPerHour
    ensures MsPerDay <= now - timestamp < 7 * MsPerDay ==>
      r.DaysAgo? && 1 <= r.days < 7 &&
      r.days * MsPerDay <= now - timestamp < (r.days + 1) * MsPerDay
    ensures 7 * MsPerDay <= now - timestamp ==> r == OnDate(timestamp)
  {
    var diffMs := now - timestamp;
    var diffMins := diffMs / MsPerMinute;
    var diffHours := diffMs / MsPerHour;
    var diffDays := diffMs / MsPerDay;
    if diffMins < 1 then JustNow
    else if diffMins < 60 then MinutesAgo(diffMins)
    else if diffHours < 24 then HoursAgo(diffHours)
    else if diffDays < 7 then DaysAgo(diffDays)
    else OnDate(timestamp)
  }

  /** The decimal digits of a count, as a template string prints it: no
      leading zero, except for zero itself. */
  function Decimal(n: nat): (r: string)
    ensures r != [] && forall k :: 0 <= k < |r| ==> '0' <= r[k] <= '9'
    ensures r[0] == '0' <==> n == 0
    ensures n == 0 ==> r == "0"
  {
    var last := [('0' as int + n % 10) as char];
    if n < 10 then last else Decimal(n / 10) + last
  }

  /** The number a string of decimal digits denotes. */
  function DecimalValue(s: string): nat
    requires forall k :: 0 <= k < |s| ==> '0' <= s[k] <= '9'
  {
    if s == [] then 0 else 10 * DecimalValue(s[..|s| - 1]) + (s[|s| - 1] as int - '0' as int)
  }

  lemma {:induction false} DecimalRoundTrip(n: nat)
    ensures DecimalValue(Decimal(n)) == n
  {
    var r := Decimal(n);
    if n >= 10 {
      DecimalRoundTrip(n / 10);
      assert r[..|r| - 1] == Decimal(n / 10);
    }
  }

  /** The text the panel shows for an age (the absolute date's text depends on
      the locale and is not modelled). */
  function AgeText(a: Age): string
    requires !a.OnDate?
  {
    match a
    case JustNow => "방금 전"
    case MinutesAgo(m) => Decimal(m) + "분 전"
    case HoursAgo(h) => Decimal(h) + "시간 전"
    case DaysAgo(d) => Decimal(d) + "일 전"
  }

  /** A relative label for an entry less than a week old names a positive
      count in decimal. */
  lemma AgeTextCount(now: int, timestamp: int)
    requires MsPerMinute <= now - timestamp < 7 * MsPerDay
    ensures var a := FormatDate(now, timestamp);
      var text := AgeText(a);
      var count := if a.MinutesAgo? then a.minutes else if a.HoursAgo? then a.hours else a.days;
      var suffix := if a.MinutesAgo? then "분 전" else if a.HoursAgo? then "시간 전" else "일 전";
      count > 0 && text == Decimal(count) + suffix
  {
  }

  /** `getTypeIcon`: the icon for a type name, and the memo icon for any other string. */
  function TypeIcon(kind: string): (r: string)
    ensures kind !in {"phone", "email", "url", "sms", "wifi", "geo", "text"} ==> r == "📝"
  {
    if kind == "phone" then "📞"
    else if kind == "email" then "📧"
    else if kind == "url" then "🌐"
    else if kind == "sms" then "💬"
    else if kind == "wifi" then "📶"
    else if kind == "geo" then "📍"
    else "📝"
  }

  /** Each data type has its own icon. */
  lemma IconsDistinct(a: DataType, b: DataType)
    requires a != b
    ensures TypeIcon(TypeName(a)) != TypeIcon(TypeName(b))
  {
  }

  /** The two tabs of the panel. */
  datatype Tab = RecentTab | FavoritesTab

  /** `currentItems`: the whole history on the recent tab, the favourites otherwise. */
  function CurrentItems(tab: Tab, history: seq<HistoryItem>, favorites: seq<HistoryItem>): (r: seq<HistoryItem>)
    ensures tab == RecentTab ==> r == history
    ensures tab == FavoritesTab ==> r == favorites
  {
    if tab == RecentTab then history else favorites
  }

  /** With the hook's `favorites` view, the panel always shows entries of the
      history, in history order. */
  lemma CurrentItemsFromHistory(tab: Tab, history: seq<HistoryItem>)
    ensures IsSubsequence(CurrentItems(tab, history, Favorites(history)), history)
  {
    if tab == RecentTab {
      SelfSubsequence(history);
    }
  }
}
