/** The logic of the profile card: the local time shown as `H:MM AM|PM`,
    and the "Email Copied!" flag raised by a successful clipboard write. The
    hour and minute the clock reports and the outcome of the clipboard write
    arrive as parameters. */
module ProfileCard {
  import opened Maybe
  import opened Timers

  /** How long "Email Copied!" stays up, in ms. */
  const CopiedDelay: nat := 2000

  /** The 12-hour clock hour for a 24-hour `h`: the only value in 1..12 that
      agrees with `h` modulo 12. */
  function Hour12(h: nat): (r: nat)
    requires h < 24
    ensures 1 <= r <= 12
    ensures r % 12 == h % 12
  {
    ((h + 11) % 12) + 1
  }

  /** The suffix: afternoon from 12:00 on. */
  function Meridiem(h: nat): (r: string)
    requires h < 24
    ensures r == "PM" || r == "AM"
    ensures r == "PM" <==> h >= 12
  {
    if h >= 12 then "PM" else "AM"
  }

  /** Midnight and noon read 12, the morning hours read as themselves and
      the afternoon hours drop twelve. */
  lemma Hour12Cases(h: nat)
    requires h < 24
    ensures h == 0 ==> Hour12(h) == 12 && Meridiem(h) == "AM"
    ensures h == 12 ==> Hour12(h) == 12 && Meridiem(h) == "PM"
    ensures 1 <= h <= 12 ==> Hour12(h) == h
    ensures 13 <= h ==> Hour12(h) == h - 12
  {
  }

  /** Reading a 12-hour time back as a 24-hour one. */
  function To24(hour12: nat, pm: bool): (h: nat)
    requires 1 <= hour12 <= 12
    ensures h < 24
    ensures h >= 12 <==> pm
    ensures h % 12 == hour12 % 12
  {
    (hour12 % 12) + (if pm then 12 else 0)
  }

  /** The 12-hour form loses nothing: every 24-hour hour is recovered from
      its hour and suffix, and every hour/suffix pair is the form of exactly
      one 24-hour hour. */
  lemma ClockRoundTrip(h: nat, hour12: nat, pm: bool)
    requires h < 24 && 1 <= hour12 <= 12
    ensures To24(Hour12(h), Meridiem(h) == "PM") == h
    ensures Hour12(To24(hour12, pm)) == hour12 && (Meridiem(To24(hour12, pm)) == "PM") == pm
  {
  }

  predicate IsDigit(c: char) {
    '0' <= c <= '9'
  }

  predicate AllDigits(s: string) {
    forall i :: 0 <= i < |s| ==> IsDigit(s[i])
  }

  function DigitChar(d: nat): (c: char)
    requires d < 10
    ensures IsDigit(c) && c as int - '0' as int == d
  {
    ('0' as int + d) as char
  }

  /** `n.toString()`: decimal digits, without leading zeros. */
  function Decimal(n: nat): (r: string)
    ensures |r| >= 1 && AllDigits(r)
    ensures |r| > 1 ==> r[0] != '0'
    ensures n < 10 <==> |r| == 1
  {
    if n < 10 then [DigitChar(n)] else Decimal(n / 10) + [DigitChar(n % 10)]
  }

  /** The number a string of decimal digits denotes. */
  function DecimalValue(s: string): nat
    requires AllDigits(s)
  {
    if s == [] then 0
    else DecimalValue(s[..|s| - 1]) * 10 + (s[|s| - 1] as int - '0' as int)
  }

  /** Reading back what `Decimal` wrote gives the number again. */
  lemma {:induction false} DecimalRoundTrip(n: nat)
    ensures DecimalValue(Decimal(n)) == n
  {
    if n >= 10 {
      var s := Decimal(n);
      assert s[..|s| - 1] == Decimal(n / 10);
      DecimalRoundTrip(n / 10);
    } else {
      assert Decimal(n)[..0] == [];
    }
  }

  /** `s.padStart(2, "0")`. */
  function PadTwo(s: string): (r: string)
    ensures |s| >= 2 ==> r == s
    ensures |s| < 2 ==> |r| == 2 && r[2 - |s|..] == s && forall i :: 0 <= i < 2 - |s| ==> r[i] == '0'
  {
    if |s| >= 2 then s else seq(2 - |s|, _ => '0') + s
  }

  /** The minutes as shown: exactly two digits, read back as `m`. */
  function MinuteText(m: nat): (r: string)
    requires m < 60
    ensures |r| == 2 && AllDigits(r)
    ensures DecimalValue(r) == m
  {
    var d := Decimal(m);
    DecimalRoundTrip(m);
    var r := PadTwo(d);
    if |d| == 1 then
      assert r == ['0'] + d;
      assert r[..1] == ['0'] && r[..1][..0] == [];
      r
    else
      r
  }

  /** `timeText`: `H:MM AM|PM`, where the hour has no leading zero. */
  function TimeText(h: nat, m: nat): (r: string)
    requires h < 24 && m < 60
    ensures |r| == 7 || |r| == 8
    ensures |r| == 8 <==> Hour12(h) >= 10
    ensures r[0] != '0' && AllDigits(r[..|r| - 6])
    ensures r[|r| - 6] == ':' && r[|r| - 3] == ' '
    ensures AllDigits(r[|r| - 5..|r| - 3])
    ensures r[|r| - 2..] == Meridiem(h)
  {
    var hour := Decimal(Hour12(h));
    var r := hour + [':'] + MinuteText(m) + [' '] + Meridiem(h);
    assert r[..|r| - 6] == hour;
    assert r[|r| - 5..|r| - 3] == MinuteText(m);
    assert r[|r| - 2..] == Meridiem(h);
    r
  }

  /** Reading a `H:MM AM|PM` string back as a 24-hour hour and a minute. */
  function ParseTimeText(s: string): (r: Option<(nat, nat)>)
    ensures r.Some? ==> r.value.0 < 24 && r.value.1 < 60
  {
    if |s| < 7 || |s| > 8 then None
    else
      var hour := s[..|s| - 6];
      var minute := s[|s| - 5..|s| - 3];
      var suffix := s[|s| - 2..];
      if s[|s| - 6] != ':' || s[|s| - 3] != ' ' || !AllDigits(hour) || !AllDigits(minute)
         || (suffix != "AM" && suffix != "PM") then None
      else
        var h12 := DecimalValue(hour);
        var m := DecimalValue(minute);
        if h12 < 1 || h12 > 12 || m >= 60 then None
        else Some((To24(h12, suffix == "PM"), m))
  }

  /** The displayed time determines the clock reading it came from. */
  lemma TimeTextRoundTrip(h: nat, m: nat)
    requires h < 24 && m < 60
    ensures ParseTimeText(TimeText(h, m)) == Some((h, m))
  {
    var s := TimeText(h, m);
    var hour := Decimal(Hour12(h));
    assert s[..|s| - 6] == hour;
    assert s[|s| - 5..|s| - 3] == MinuteText(m);
    DecimalRoundTrip(Hour12(h));
    ClockRoundTrip(h, 12, false);
  }

  /** `handleCopy` once the clipboard write settles: on success the flag goes
      up and a hide is scheduled `CopiedDelay` ms later; a rejected write is
      swallowed and leaves everything as it was. */
  function HandleCopy(copied: Flash, writeSucceeded: bool, now: nat): (r: Flash)
    ensures !writeSucceeded ==> r == copied
    ensures writeSucceeded ==> r.shown && now + CopiedDelay in Deadlines(r.hides)
    ensures writeSucceeded && Valid(copied.hides) ==>
              Deadlines(r.hides) == {now + CopiedDelay} + (set d | d in Deadlines(copied.hides) && d > now)
  {
    if writeSucceeded then Show(copied, now, CopiedDelay) else copied
  }

  /** The flag only rises because a write succeeded. */
  lemma CopiedOnlyAfterSuccess(copied: Flash, writeSucceeded: bool, now: nat)
    requires !copied.shown
    ensures HandleCopy(copied, writeSucceeded, now).shown <==> writeSucceeded
  {
  }

  /** Unless an earlier reset falls inside the interval, the flag stays up
      for exactly `CopiedDelay` ms after a successful write. */
  lemma CopiedResetsAfterDelay(copied: Flash, now: nat, t: nat)
    requires forall d :: d in Deadlines(copied.hides) ==> d <= now || d >= now + CopiedDelay
    ensures Timers.Tick(HandleCopy(copied, true, now), t).shown <==> t < now + CopiedDelay
  {
    ShowLastsItsDelay(copied, now, CopiedDelay, t);
  }
}
