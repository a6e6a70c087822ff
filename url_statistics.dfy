/** The expiry arithmetic of the statistics view (src/components/UrlStatistics.tsx),
    with the instant `new Date()` reads passed in as `now`. The same helpers appear
    verbatim in src/components/UrlResults.tsx. */
module UrlStatistics {
  import opened Types
  import opened Text
  import opened UrlRules

  const MillisPerHour: int := 60 * MillisPerMinute
  const MillisPerDay: int := 24 * MillisPerHour

  /** The " s" suffix: added exactly when the count is above one. */
  function Plural(count: int): string {
    if count > 1 then "s" else ""
  }

  /** getTimeRemaining: whole days, else whole hours, else whole minutes left. */
  function GetTimeRemaining(expiryTime: int, now: int): string {
    var diff := expiryTime - now;
    if diff <= 0 then "Expired"
    else
      var minutes := diff / MillisPerMinute;
      var hours := minutes / 60;
      var days := hours / 24;
      if days > 0 then NatToString(days) + " day" + Plural(days)
      else if hours > 0 then NatToString(hours) + " hour" + Plural(hours)
      else NatToString(minutes) + " minute" + Plural(minutes)
  }

  /** isExpired: strictly after the expiry instant. */
  predicate IsExpired(expiryTime: int, now: int) {
    now > expiryTime
  }

  /** getValidUrls. */
  function GetValidUrls(s: seq<ShortenedUrl>, now: int): seq<ShortenedUrl> {
    if s == [] then []
    else (if !IsExpired(s[0].expiryTime, now) then [s[0]] else []) + GetValidUrls(s[1..], now)
  }

  /** getExpiredUrls. */
  function GetExpiredUrls(s: seq<ShortenedUrl>, now: int): seq<ShortenedUrl> {
    if s == [] then []
    else (if IsExpired(s[0].expiryTime, now) then [s[0]] else []) + GetExpiredUrls(s[1..], now)
  }

  /** The text of the status chip of one row. */
  function StatusLabel(u: ShortenedUrl, now: int): string {
    if IsExpired(u.expiryTime, now) then "Expired" else GetTimeRemaining(u.expiryTime, now) + " left"
  }

  /** The view and the registry draw the live/expired line at the same instant. */
  lemma IsExpiredMatchesRegistry(u: ShortenedUrl, now: int)
    ensures IsExpired(u.expiryTime, now) <==> !IsLive(u, now)
  {
  }

  /** Floor divisions by 60000, then 60, then 24 are floor divisions by an hour and a day. */
  lemma NestedFloors(diff: int)
    requires diff > 0
    ensures (diff / MillisPerMinute) / 60 == diff / MillisPerHour
    ensures ((diff / MillisPerMinute) / 60) / 24 == diff / MillisPerDay
  {
  }

  /** The text is "Expired" exactly when no time is left, zero included. */
  lemma TimeRemainingExpiredIff(expiryTime: int, now: int)
    ensures GetTimeRemaining(expiryTime, now) == "Expired" <==> expiryTime - now <= 0
  {
    var r := GetTimeRemaining(expiryTime, now);
    if expiryTime - now > 0 {
      var diff := expiryTime - now;
      var minutes := diff / MillisPerMinute;
      var hours := minutes / 60;
      var days := hours / 24;
      var n := if days > 0 then days else if hours > 0 then hours else minutes;
      assert r[0] == NatToString(n)[0];
      assert r[0] != "Expired"[0];
    }
  }

  /** For time left, the unit is the largest of day, hour and minute that fits at least
      once (minute otherwise), the count is the whole number of that unit, and the
      plural "s" appears exactly when the count is above one. */
  lemma TimeRemainingUnits(expiryTime: int, now: int)
    requires expiryTime - now > 0
    ensures var diff := expiryTime - now;
      && (diff >= MillisPerDay ==>
            GetTimeRemaining(expiryTime, now) == NatToString(diff / MillisPerDay) + " day" + Plural(diff / MillisPerDay))
      && (MillisPerHour <= diff < MillisPerDay ==>
            GetTimeRemaining(expiryTime, now) == NatToString(diff / MillisPerHour) + " hour" + Plural(diff / MillisPerHour))
      && (diff < MillisPerHour ==>
            GetTimeRemaining(expiryTime, now) == NatToString(diff / MillisPerMinute) + " minute" + Plural(diff / MillisPerMinute))
  {
    var diff := expiryTime - now;
    NestedFloors(diff);
    if diff >= MillisPerDay {
      assert diff / MillisPerDay > 0;
    } else if diff >= MillisPerHour {
      assert diff / MillisPerDay == 0 && diff / MillisPerHour > 0;
    } else {
      assert diff / MillisPerDay == 0 && diff / MillisPerHour == 0;
    }
  }

  /** Under one minute left the text reads "0 minute". */
  lemma UnderOneMinute(expiryTime: int, now: int)
    requires 0 < expiryTime - now < MillisPerMinute
    ensures GetTimeRemaining(expiryTime, now) == "0 minute"
  {
    assert NatToString(0) == "0";
  }

  /** At the expiry instant the record is still live, yet the remaining time reads
      "Expired", so the chip says "Expired left". */
  lemma ExpiryInstantLabel(u: ShortenedUrl, now: int)
    requires now == u.expiryTime
    ensures !IsExpired(u.expiryTime, now)
    ensures StatusLabel(u, now) == "Expired left"
  {
  }

  /** The valid list is the registry's live filter. */
  lemma {:induction false} ValidUrlsAreLive(s: seq<ShortenedUrl>, now: int)
    ensures GetValidUrls(s, now) == Live(s, now)
  {
    if s != [] {
      ValidUrlsAreLive(s[1..], now);
    }
  }

  /** The two lists split the records: every record lands in exactly one of them, each
      list keeps the original order, and the counts add up to the total. */
  lemma {:induction false} ValidExpiredPartition(s: seq<ShortenedUrl>, now: int)
    ensures |GetValidUrls(s, now)| + |GetExpiredUrls(s, now)| == |s|
    ensures multiset(GetValidUrls(s, now)) + multiset(GetExpiredUrls(s, now)) == multiset(s)
    ensures forall u :: u in GetValidUrls(s, now) <==> u in s && !IsExpired(u.expiryTime, now)
    ensures forall u :: u in GetExpiredUrls(s, now) <==> u in s && IsExpired(u.expiryTime, now)
  {
    if s != [] {
      ValidExpiredPartition(s[1..], now);
      assert s == [s[0]] + s[1..];
    }
  }

  /** Both filters work record by record, so they keep the relative order of records. */
  lemma FiltersAppend(a: seq<ShortenedUrl>, b: seq<ShortenedUrl>, now: int)
    ensures GetValidUrls(a + b, now) == GetValidUrls(a, now) + GetValidUrls(b, now)
    ensures GetExpiredUrls(a + b, now) == GetExpiredUrls(a, now) + GetExpiredUrls(b, now)
  {
    ValidUrlsAreLive(a + b, now);
    ValidUrlsAreLive(a, now);
    ValidUrlsAreLive(b, now);
    LiveAppend(a, b, now);
    ExpiredAppend(a, b, now);
  }

  lemma {:induction false} ExpiredAppend(a: seq<ShortenedUrl>, b: seq<ShortenedUrl>, now: int)
    ensures GetExpiredUrls(a + b, now) == GetExpiredUrls(a, now) + GetExpiredUrls(b, now)
  {
    if a == [] {
      assert a + b == b;
    } else {
      assert (a + b)[0] == a[0] && (a + b)[1..] == a[1..] + b;
      ExpiredAppend(a[1..], b, now);
    }
  }
}
